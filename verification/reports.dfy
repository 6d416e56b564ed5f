/**
 * `ReportService` over three abstract tables: reports by id, and the
 * parameter and column rows, each row tagged with the id of the report that
 * owns it.  Rows are kept in insertion order, and `findByReportId` is taken
 * to return a report's rows in that order; its derived query does not
 * promise one.
 */
module Reports {
  import opened Base
  import opened Text
  import opened Errors
  import opened UserContext

  /** A row of `reports`. */
  datatype Report = Report(
    id: int, name: Option<string>, description: Option<string>, sqlContent: Option<string>, creatorId: int)

  /** A row of `report_params` or `report_columns`: the owning report's id and the row's own fields. */
  datatype Row<D> = Row(reportId: int, data: D)

  /** The fields of a `report_params` row; `required` is never null there. */
  datatype ParamEntry = ParamEntry(paramName: Option<string>, paramType: Option<string>, required: bool)

  /** `ReportParamDTO`. */
  datatype ParamDto = ParamDto(paramName: Option<string>, paramType: Option<string>, required: Option<bool>)

  /** `ReportColumnDTO`, which is also exactly the fields of a `report_columns` row. */
  datatype ColumnDto = ColumnDto(fieldName: Option<string>, displayName: Option<string>, formatType: Option<string>)

  type ParamRow = Row<ParamEntry>
  type ColumnRow = Row<ColumnDto>

  /** `ReportCreateRequest`, used for both create and update. */
  datatype ReportRequest = ReportRequest(
    name: Option<string>, description: Option<string>, sqlContent: Option<string>,
    params: Option<seq<ParamDto>>, columns: Option<seq<ColumnDto>>)

  /** `ReportDTO`; the list view leaves `sqlContent`, `params` and `columns` null. */
  datatype ReportDto = ReportDto(
    id: int, name: Option<string>, description: Option<string>, sqlContent: Option<string>, creatorId: int,
    params: Option<seq<ParamDto>>, columns: Option<seq<ColumnDto>>)

  /** The three tables and the identity counter of `reports`. */
  datatype Store = Store(reports: map<int, Report>, params: seq<ParamRow>, columns: seq<ColumnRow>, nextId: int)

  /** `"报表不存在: " + id`. */
  function NotFound(id: int): BusinessError {
    BusinessError("REPORT_NOT_FOUND", "报表不存在: " + DecimalString(id))
  }

  /**
   * Referential integrity: each report sits under its own id below the
   * counter, and every parameter and column row belongs to a stored report.
   */
  predicate Valid(st: Store) {
    && (forall id :: id in st.reports ==> st.reports[id].id == id && id < st.nextId)
    && (forall i :: 0 <= i < |st.params| ==> st.params[i].reportId in st.reports)
    && (forall i :: 0 <= i < |st.columns| ==> st.columns[i].reportId in st.reports)
  }

  // ---------------------------------------------------------------------------
  // Row selection: `findByReportId` and `deleteByReportId`.
  // ---------------------------------------------------------------------------

  /** The rows whose owner is `id` (when `owned`) or is not `id` (when not), in table order. */
  function RowsWhere<D>(rows: seq<Row<D>>, id: int, owned: bool): seq<Row<D>> {
    if rows == [] then []
    else (if (rows[0].reportId == id) == owned then [rows[0]] else []) + RowsWhere(rows[1..], id, owned)
  }

  /** `findByReportId(id)`. */
  function RowsOf<D>(rows: seq<Row<D>>, id: int): seq<Row<D>> {
    RowsWhere(rows, id, true)
  }

  /** The table after `deleteByReportId(id)`. */
  function RowsNotOf<D>(rows: seq<Row<D>>, id: int): seq<Row<D>> {
    RowsWhere(rows, id, false)
  }

  /** A row is selected exactly when it is in the table and its owner test comes out as asked. */
  lemma {:induction false} RowSelected<D>(rows: seq<Row<D>>, id: int, owned: bool, x: Row<D>)
    ensures x in RowsWhere(rows, id, owned) <==> x in rows && (x.reportId == id) == owned
  {
    if rows != [] {
      RowSelected(rows[1..], id, owned, x);
      assert rows == [rows[0]] + rows[1..];
    }
  }

  /** Selection distributes over appending rows. */
  lemma {:induction false} RowsWhereAppend<D>(a: seq<Row<D>>, b: seq<Row<D>>, id: int, owned: bool)
    ensures RowsWhere(a + b, id, owned) == RowsWhere(a, id, owned) + RowsWhere(b, id, owned)
  {
    if a == [] {
      assert a + b == b;
    } else {
      var ab := a + b;
      assert ab[0] == a[0];
      assert ab[1..] == a[1..] + b;
      RowsWhereAppend(a[1..], b, id, owned);
      AppendAssocRows(if (a[0].reportId == id) == owned then [a[0]] else [], RowsWhere(a[1..], id, owned), RowsWhere(b, id, owned));
    }
  }

  /** Concatenation of rows is associative. */
  lemma AppendAssocRows<D>(x: seq<Row<D>>, y: seq<Row<D>>, z: seq<Row<D>>)
    ensures x + (y + z) == (x + y) + z
  {
  }

  /** Rows that all pass the owner test are all selected, in order; rows that all fail it give nothing. */
  lemma {:induction false} RowsWhereUniform<D>(rows: seq<Row<D>>, id: int, owned: bool)
    ensures (forall i :: 0 <= i < |rows| ==> (rows[i].reportId == id) == owned) ==> RowsWhere(rows, id, owned) == rows
    ensures (forall i :: 0 <= i < |rows| ==> (rows[i].reportId == id) != owned) ==> RowsWhere(rows, id, owned) == []
  {
    if rows != [] {
      RowsWhereUniform(rows[1..], id, owned);
      assert rows == [rows[0]] + rows[1..];
    }
  }

  /** Deleting the rows of `id` leaves the rows of every other report exactly as they were, and none of `id`'s. */
  lemma {:induction false} RowsNotOfKeepsOthers<D>(rows: seq<Row<D>>, id: int, other: int)
    ensures RowsOf(RowsNotOf(rows, id), id) == []
    ensures other != id ==> RowsOf(RowsNotOf(rows, id), other) == RowsOf(rows, other)
  {
    if rows != [] {
      RowsNotOfKeepsOthers(rows[1..], id, other);
      var head := if rows[0].reportId != id then [rows[0]] else [];
      RowsWhereAppend(head, RowsNotOf(rows[1..], id), id, true);
      RowsWhereAppend(head, RowsNotOf(rows[1..], id), other, true);
    }
  }

  // ---------------------------------------------------------------------------
  // From request DTOs to rows and back.
  // ---------------------------------------------------------------------------

  /** The loop saving a request's parameters for report `id`; a null or empty list saves none. */
  function NewParamRows(id: int, params: Option<seq<ParamDto>>): (r: seq<ParamRow>)
    ensures forall i :: 0 <= i < |r| ==> r[i].reportId == id
    ensures params.None? ==> r == []
    ensures params.Some? ==> |r| == |params.value|
    ensures params.Some? ==> forall i :: 0 <= i < |r| ==>
      && r[i].data.paramName == params.value[i].paramName
      && r[i].data.paramType == params.value[i].paramType
      && (r[i].data.required <==> params.value[i].required == Some(true))
  {
    match params
    case None => []
    case Some(ps) =>
      if |ps| == 0 then []
      else seq(|ps|, i requires 0 <= i < |ps| => Row(id, ParamEntry(ps[i].paramName, ps[i].paramType, ps[i].required.GetOr(false))))
  }

  /** The loop saving a request's columns for report `id`; a null or empty list saves none. */
  function NewColumnRows(id: int, columns: Option<seq<ColumnDto>>): (r: seq<ColumnRow>)
    ensures forall i :: 0 <= i < |r| ==> r[i].reportId == id
    ensures columns.None? ==> r == []
    ensures columns.Some? ==> |r| == |columns.value| && forall i :: 0 <= i < |r| ==> r[i].data == columns.value[i]
  {
    match columns
    case None => []
    case Some(cs) => if |cs| == 0 then [] else seq(|cs|, i requires 0 <= i < |cs| => Row(id, cs[i]))
  }

  /** The DTO `getReportById` builds from a parameter row. */
  function ParamDtoOf(row: ParamRow): ParamDto {
    ParamDto(row.data.paramName, row.data.paramType, Some(row.data.required))
  }

  /** A request's parameter as it reads back once saved: a null `required` becomes false. */
  function Saved(p: ParamDto): ParamDto {
    p.(required := Some(p.required.GetOr(false)))
  }

  /** The parameter list a request leads to once saved and read back; null reads back as empty. */
  function SavedParams(params: Option<seq<ParamDto>>): seq<ParamDto> {
    match params
    case None => []
    case Some(ps) => seq(|ps|, i requires 0 <= i < |ps| => Saved(ps[i]))
  }

  /** The DTOs of a report's parameter rows, in table order. */
  function ParamDtos(rows: seq<ParamRow>): seq<ParamDto> {
    seq(|rows|, i requires 0 <= i < |rows| => ParamDtoOf(rows[i]))
  }

  /** The DTOs of a report's column rows, in table order. */
  function ColumnDtos(rows: seq<ColumnRow>): seq<ColumnDto> {
    seq(|rows|, i requires 0 <= i < |rows| => rows[i].data)
  }

  /** Saving a request's parameters and reading them back gives the request's list, defaults filled in. */
  lemma ParamsReadBack(id: int, params: Option<seq<ParamDto>>)
    ensures ParamDtos(NewParamRows(id, params)) == SavedParams(params)
  {
  }

  // ---------------------------------------------------------------------------
  // The service operations.
  // ---------------------------------------------------------------------------

  /** The full DTO of a stored report, with its parameters and columns. */
  function Details(st: Store, id: int): ReportDto
    requires id in st.reports
  {
    var r := st.reports[id];
    ReportDto(r.id, r.name, r.description, r.sqlContent, r.creatorId,
      Some(ParamDtos(RowsOf(st.params, id))), Some(ColumnDtos(RowsOf(st.columns, id))))
  }

  /** `getReportById`. */
  function GetReportById(st: Store, id: int): (r: Result<ReportDto, BusinessError>)
    ensures r.Failure? <==> id !in st.reports
    ensures r.Failure? ==> r.error == NotFound(id)
    ensures r.Success? ==>
      var rep := st.reports[id];
      && r.value.id == rep.id && r.value.name == rep.name && r.value.description == rep.description
      && r.value.sqlContent == rep.sqlContent && r.value.creatorId == rep.creatorId
    ensures r.Success? ==> r.value.params == Some(ParamDtos(RowsOf(st.params, id)))
    ensures r.Success? ==> r.value.columns == Some(ColumnDtos(RowsOf(st.columns, id)))
  {
    if id !in st.reports then Failure(NotFound(id)) else Success(Details(st, id))
  }

  /** The list view of a report. */
  function Summary(r: Report): ReportDto {
    ReportDto(r.id, r.name, r.description, None, r.creatorId, None, None)
  }

  /** `getAllReports`, as a set (the order of `findAll` is left open). */
  function GetAllReports(st: Store): (r: set<ReportDto>)
    ensures forall d :: d in r ==> d.sqlContent.None? && d.params.None? && d.columns.None?
  {
    set id | id in st.reports :: Summary(st.reports[id])
  }

  /**
   * `createReport`: the creator is the context's current user, whose absence
   * fails first (so the service's own null check never fires); the report takes
   * the next id and its parameter and column rows are appended.
   */
  function CreateReport(st: Store, ctx: Context, req: ReportRequest): (r: Result<(Store, ReportDto), BusinessError>)
    ensures r.Failure? <==> CurrentUserId(ctx).Failure?
    ensures r.Failure? ==> r.error == CurrentUserId(ctx).error
    ensures r.Success? ==> r.value.1.creatorId == CurrentUserId(ctx).value && r.value.1.id == st.nextId
    ensures r.Success? ==> r.value.0.reports.Keys == st.reports.Keys + {st.nextId}
    ensures r.Success? ==> forall id :: id in st.reports && id != st.nextId ==> r.value.0.reports[id] == st.reports[id]
    ensures r.Success? ==>
      && r.value.0.reports[st.nextId] == Report(st.nextId, req.name, req.description, req.sqlContent, CurrentUserId(ctx).value)
      && r.value.0.nextId == st.nextId + 1
    ensures r.Success? ==>
      r.value.1.name == req.name && r.value.1.description == req.description && r.value.1.sqlContent == req.sqlContent
  {
    var creator :- CurrentUserId(ctx);
    var id := st.nextId;
    var st2 := Store(
      st.reports[id := Report(id, req.name, req.description, req.sqlContent, creator)],
      st.params + NewParamRows(id, req.params),
      st.columns + NewColumnRows(id, req.columns),
      st.nextId + 1);
    Success((st2, Details(st2, id)))
  }

  /**
   * `updateReport`: name, description and SQL are overwritten (even with
   * null), the creator stays, and the report's parameter and column rows are
   * replaced by the request's.
   */
  function UpdateReport(st: Store, id: int, req: ReportRequest): (r: Result<(Store, ReportDto), BusinessError>)
    ensures r.Failure? <==> id !in st.reports
    ensures r.Failure? ==> r.error == NotFound(id)
    ensures r.Success? ==> r.value.0.reports.Keys == st.reports.Keys && r.value.0.nextId == st.nextId
    ensures r.Success? ==> forall j :: j in st.reports && j != id ==> r.value.0.reports[j] == st.reports[j]
    ensures r.Success? ==>
      var after := r.value.0.reports[id];
      after.id == st.reports[id].id && after.creatorId == st.reports[id].creatorId
      && after.name == req.name && after.description == req.description && after.sqlContent == req.sqlContent
    ensures r.Success? ==> GetReportById(r.value.0, id) == Success(r.value.1)
    ensures r.Success? ==>
      && r.value.1.id == st.reports[id].id && r.value.1.creatorId == st.reports[id].creatorId
      && r.value.1.name == req.name && r.value.1.description == req.description && r.value.1.sqlContent == req.sqlContent
  {
    if id !in st.reports then
      Failure(NotFound(id))
    else
      var r := st.reports[id];
      var st2 := Store(
        st.reports[id := r.(name := req.name, description := req.description, sqlContent := req.sqlContent)],
        RowsNotOf(st.params, id) + NewParamRows(id, req.params),
        RowsNotOf(st.columns, id) + NewColumnRows(id, req.columns),
        st.nextId);
      Success((st2, Details(st2, id)))
  }

  /** `deleteReport`, with the database's ON DELETE CASCADE removing the report's rows in the same step. */
  function DeleteReport(st: Store, id: int): (r: Result<Store, BusinessError>)
    ensures r.Failure? <==> id !in st.reports
    ensures r.Failure? ==> r.error == NotFound(id)
    ensures r.Success? ==> r.value.reports.Keys == st.reports.Keys - {id} && r.value.nextId == st.nextId
  {
    if id !in st.reports then
      Failure(NotFound(id))
    else
      Success(Store(st.reports - {id}, RowsNotOf(st.params, id), RowsNotOf(st.columns, id), st.nextId))
  }

  // ---------------------------------------------------------------------------
  // What the operations promise together.
  // ---------------------------------------------------------------------------

  /** Without a logged-in user nothing is stored, and the AUTH_ERROR branch is never what fails. */
  lemma CreateNeedsLogin(st: Store, ctx: Context, req: ReportRequest)
    ensures ctx.None? ==> CreateReport(st, ctx, req) == Failure(NoRequestContext)
    ensures ctx.Some? && ctx.value.userId.None? ==> CreateReport(st, ctx, req) == Failure(NotLoggedIn)
    ensures CreateReport(st, ctx, req).Failure? ==> CreateReport(st, ctx, req).error.code != "AUTH_ERROR"
  {
  }

  /**
   * A created report keeps the tables consistent, reads back with the
   * current user as creator, and owns exactly the request's parameters and
   * columns, with null `required` flags read back as false; every other
   * report keeps its own rows.
   */
  lemma CreateReadsBack(st: Store, ctx: Context, req: ReportRequest, other: int)
    requires Valid(st)
    requires CreateReport(st, ctx, req).Success?
    ensures Valid(CreateReport(st, ctx, req).value.0)
    ensures var (st2, dto) := CreateReport(st, ctx, req).value;
      && GetReportById(st2, dto.id) == Success(dto)
      && dto.params == Some(SavedParams(req.params))
      && dto.columns == Some(NewColumnRowsData(req.columns))
    ensures var st2 := CreateReport(st, ctx, req).value.0;
      && (other != st.nextId ==> RowsOf(st2.params, other) == RowsOf(st.params, other))
      && (other != st.nextId ==> RowsOf(st2.columns, other) == RowsOf(st.columns, other))
  {
    var id := st.nextId;
    assert id !in st.reports;
    AppendedRows(st.params, id, NewParamRows(id, req.params), st.reports.Keys);
    AppendedRows(st.columns, id, NewColumnRows(id, req.columns), st.reports.Keys);
    if other != id {
      RowsWhereAppend(st.params, NewParamRows(id, req.params), other, true);
      RowsWhereAppend(st.columns, NewColumnRows(id, req.columns), other, true);
      RowsWhereUniform(NewParamRows(id, req.params), other, true);
      RowsWhereUniform(NewColumnRows(id, req.columns), other, true);
    }
    ParamsReadBack(id, req.params);
    ColumnsReadBack(id, req.columns);
  }

  /** Appending rows of a new report `id` to a table of other reports' rows: `id` reads back just those rows. */
  lemma AppendedRows<D>(rows: seq<Row<D>>, id: int, added: seq<Row<D>>, ids: set<int>)
    requires id !in ids
    requires forall i :: 0 <= i < |rows| ==> rows[i].reportId in ids
    requires forall i :: 0 <= i < |added| ==> added[i].reportId == id
    ensures RowsOf(rows + added, id) == added
    ensures forall i :: 0 <= i < |rows + added| ==> (rows + added)[i].reportId in ids + {id}
  {
    RowsWhereUniform(rows, id, true);
    RowsWhereUniform(added, id, true);
    RowsWhereAppend(rows, added, id, true);
  }

  /** The column list a request leads to once saved and read back; null reads back as empty. */
  function NewColumnRowsData(columns: Option<seq<ColumnDto>>): seq<ColumnDto> {
    columns.GetOr([])
  }

  /** Saving a request's columns and reading them back gives the request's list. */
  lemma ColumnsReadBack(id: int, columns: Option<seq<ColumnDto>>)
    ensures ColumnDtos(NewColumnRows(id, columns)) == NewColumnRowsData(columns)
  {
  }

  /**
   * After an update the report owns exactly the request's parameters and
   * columns (none for a null or empty list), read back with null `required`
   * flags as false, and every other report keeps its own.
   */
  lemma UpdateReplacesRows(st: Store, id: int, req: ReportRequest, other: int)
    requires UpdateReport(st, id, req).Success?
    ensures var st2 := UpdateReport(st, id, req).value.0;
      && RowsOf(st2.params, id) == NewParamRows(id, req.params)
      && RowsOf(st2.columns, id) == NewColumnRows(id, req.columns)
      && UpdateReport(st, id, req).value.1.params == Some(SavedParams(req.params))
      && UpdateReport(st, id, req).value.1.columns == Some(NewColumnRowsData(req.columns))
      && (other != id ==> RowsOf(st2.params, other) == RowsOf(st.params, other))
      && (other != id ==> RowsOf(st2.columns, other) == RowsOf(st.columns, other))
  {
    ReplacedRows(st.params, id, NewParamRows(id, req.params), other);
    ReplacedRows(st.columns, id, NewColumnRows(id, req.columns), other);
    ParamsReadBack(id, req.params);
    ColumnsReadBack(id, req.columns);
  }

  /** Replacing the rows of `id` by `added` rows of `id`: `id` reads back `added`, every other report its old rows. */
  lemma ReplacedRows<D>(rows: seq<Row<D>>, id: int, added: seq<Row<D>>, other: int)
    requires forall i :: 0 <= i < |added| ==> added[i].reportId == id
    ensures RowsOf(RowsNotOf(rows, id) + added, id) == added
    ensures other != id ==> RowsOf(RowsNotOf(rows, id) + added, other) == RowsOf(rows, other)
  {
    RowsNotOfKeepsOthers(rows, id, other);
    RowsWhereAppend(RowsNotOf(rows, id), added, id, true);
    RowsWhereAppend(RowsNotOf(rows, id), added, other, true);
    RowsWhereUniform(added, id, true);
    RowsWhereUniform(added, other, true);
  }

  /** An update keeps every parameter and column row attached to a stored report. */
  lemma UpdateKeepsValid(st: Store, id: int, req: ReportRequest)
    requires Valid(st)
    requires UpdateReport(st, id, req).Success?
    ensures Valid(UpdateReport(st, id, req).value.0)
  {
    var st2 := UpdateReport(st, id, req).value.0;
    KeptRowsAttached(st.params, id, NewParamRows(id, req.params), st.reports.Keys);
    KeptRowsAttached(st.columns, id, NewColumnRows(id, req.columns), st.reports.Keys);
  }

  /** Rows owned by stored reports stay so when some are dropped and rows of a stored report are added. */
  lemma KeptRowsAttached<D>(rows: seq<Row<D>>, id: int, added: seq<Row<D>>, ids: set<int>)
    requires id in ids
    requires forall i :: 0 <= i < |rows| ==> rows[i].reportId in ids
    requires forall i :: 0 <= i < |added| ==> added[i].reportId == id
    ensures forall i :: 0 <= i < |RowsNotOf(rows, id) + added| ==> (RowsNotOf(rows, id) + added)[i].reportId in ids
  {
    KeptRows(rows, id, ids);
  }

  /** The rows left after deleting those of `id` belong to the same reports as before, never to `id`. */
  lemma KeptRows<D>(rows: seq<Row<D>>, id: int, ids: set<int>)
    requires forall i :: 0 <= i < |rows| ==> rows[i].reportId in ids
    ensures forall i :: 0 <= i < |RowsNotOf(rows, id)| ==> RowsNotOf(rows, id)[i].reportId in ids - {id}
  {
    var kept := RowsNotOf(rows, id);
    forall i | 0 <= i < |kept| ensures kept[i].reportId in ids - {id} {
      RowSelected(rows, id, false, kept[i]);
      var j :| 0 <= j < |rows| && rows[j] == kept[i];
    }
  }

  /**
   * Deleting a report removes its parameter and column rows with it: the
   * tables stay consistent, the report is no longer found, and every other
   * report reads back exactly as before.
   */
  lemma DeleteCascades(st: Store, id: int, other: int)
    requires Valid(st)
    requires DeleteReport(st, id).Success?
    ensures var st2 := DeleteReport(st, id).value;
      && Valid(st2)
      && GetReportById(st2, id) == Failure(NotFound(id))
      && (forall i :: 0 <= i < |st2.params| ==> st2.params[i].reportId != id)
      && (forall i :: 0 <= i < |st2.columns| ==> st2.columns[i].reportId != id)
      && (other != id ==> GetReportById(st2, other) == GetReportById(st, other))
  {
    KeptRows(st.params, id, st.reports.Keys);
    KeptRows(st.columns, id, st.reports.Keys);
    RowsNotOfKeepsOthers(st.params, id, other);
    RowsNotOfKeepsOthers(st.columns, id, other);
  }

  /** The list view is the detail view with the SQL, parameters and columns dropped. */
  lemma ListIsDetailsWithoutContent(st: Store, d: ReportDto)
    ensures d in GetAllReports(st) <==>
      exists id :: id in st.reports && d == GetReportById(st, id).value.(sqlContent := None, params := None, columns := None)
  {
    if d in GetAllReports(st) {
      var id :| id in st.reports && d == Summary(st.reports[id]);
      assert d == GetReportById(st, id).value.(sqlContent := None, params := None, columns := None);
    }
  }
}
