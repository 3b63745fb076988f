/** The query resolution and row projection of the Rally data source.

    A query names an optional project, story id and defect id. The data
    source picks one of four fetchers by a fixed precedence, calls the
    Rally web service through the plugin's route, and appends one row per
    returned record to a frame whose fields the fetcher declares up front.

    The HTTP gateway is a parameter: a total function from the resource
    path to the decoded response. The fetches are modelled as completing
    one after the other, stories before defects. */
module DataSource {
  import opened Wrappers
  import opened JsBuiltins
  import opened Frames

  // ---------------------------------------------------------------------
  // Inputs and the gateway
  // ---------------------------------------------------------------------

  /** `RallyQuery`: the host's correlation id and the three optional
      fields the editor fills in */
  datatype Query = Query(
    refId: string,
    project: Option<string>,
    storyId: Option<int>,
    defectId: Option<int>)

  /** The fields of one Rally record that the extractors read:
      `FormattedID`, `_refObjectName` and `_ref` */
  datatype Record = Record(formattedId: string, refObjectName: string, ref: string)

  /** A gateway response, decoded: `ok`, `statusText` and the records of
      `data.QueryResult.Results` */
  datatype Response = Response(ok: bool, statusText: string, results: seq<Record>)

  /** `callRallyAPI(path)`: the response the service gives for a path */
  type Gateway = string -> Response

  const StoryResource := "/hierarchicalrequirement"
  const DefectResource := "/defect"
  const ProjectResource := "/project"
  const SubscriptionResource := "/subscription"

  /** `${resource}/${id}`: the path of one story or defect, the resource
      followed by `/` and then the id's rendering (whose last segment reads
      back as the id, EntityPathEndsWithId) */
  function EntityPath(resource: string, id: int): (p: string)
    ensures |p| > |resource| + 1
    ensures p[..|resource|] == resource && p[|resource|] == '/'
    ensures p[|resource| + 1..] == IntToString(id)
  {
    resource + "/" + IntToString(id)
  }

  // ---------------------------------------------------------------------
  // Dispatch
  // ---------------------------------------------------------------------

  /** The four fetchers `doRequest` chooses between */
  datatype Mode = Projects | Story(storyId: int) | Defect(defectId: int) | InProgress(project: string)

  /** JavaScript truthiness of an optional string: present and non-empty */
  predicate IsTruthyText(o: Option<string>)
  {
    o.Some? && o.value != ""
  }

  /** JavaScript truthiness of an optional integral number: present and
      non-zero */
  predicate IsTruthyNumber(o: Option<int>)
  {
    o.Some? && o.value != 0
  }

  /** `doRequest`'s if-chain: the first of "no project", "a story id", "a
      defect id" that holds picks the fetcher; otherwise in-progress. */
  function Resolve(q: Query): (m: Mode)
    ensures m.Projects? <==> !IsTruthyText(q.project)
    ensures m.Story? <==> IsTruthyText(q.project) && IsTruthyNumber(q.storyId)
    ensures m.Defect? <==>
      IsTruthyText(q.project) && !IsTruthyNumber(q.storyId) && IsTruthyNumber(q.defectId)
    ensures m.InProgress? <==>
      IsTruthyText(q.project) && !IsTruthyNumber(q.storyId) && !IsTruthyNumber(q.defectId)
    ensures m.Story? ==> q.storyId == Some(m.storyId)
    ensures m.Defect? ==> q.defectId == Some(m.defectId)
    ensures m.InProgress? ==> q.project == Some(m.project)
  {
    if !IsTruthyText(q.project) then Projects
    else if IsTruthyNumber(q.storyId) then Story(q.storyId.value)
    else if IsTruthyNumber(q.defectId) then Defect(q.defectId.value)
    else InProgress(q.project.value)
  }

  // ---------------------------------------------------------------------
  // Schemas and extractors
  // ---------------------------------------------------------------------

  /** key, name, id: the fields of a story or defect frame */
  const EntityFields: seq<Field> :=
    [Field("key", StringField), Field("name", StringField), Field("id", NumberField)]

  /** key, name, id, type: the fields of an in-progress frame */
  const ArtifactFields: seq<Field> := EntityFields + [Field("type", StringField)]

  /** name, id: the fields of a project frame */
  const ProjectFields: seq<Field> := [Field("name", StringField), Field("id", NumberField)]

  /** The two record kinds an in-progress frame mixes */
  datatype ArtifactKind = UserStoryKind | DefectKind

  /** The literal the `type` column holds for a kind */
  function KindLabel(k: ArtifactKind): string
  {
    match k
    case UserStoryKind => "userstory"
    case DefectKind => "defect"
  }

  /** The per-fetcher row extractors: the story and defect ones echo the
      queried id, the in-progress ones tag the kind, the project one reads
      the name and the reference. */
  datatype Extractor = EchoId(id: int) | ArtifactRow(kind: ArtifactKind) | ProjectRow

  /** The fields of the frame each extractor feeds */
  function ExtractorFields(e: Extractor): seq<Field>
  {
    match e
    case EchoId(_) => EntityFields
    case ArtifactRow(_) => ArtifactFields
    case ProjectRow => ProjectFields
  }

  /** `parseInt(ref.split('/').pop(), 10)`: the number the last segment of
      a reference starts with, NaN when it starts with no digits */
  function RefId(ref: string): (c: Cell)
    ensures c.Number? || c.NaN?
  {
    match ParseInt(LastSegment(ref))
    case Some(n) => Number(n)
    case None => NaN
  }

  /** The `id` value of a row: the queried id for a story or defect, the
      number parsed from the record's reference otherwise */
  function IdCell(e: Extractor, r: Record): (c: Cell)
    ensures c.Number? || c.NaN?
  {
    match e
    case EchoId(id) => Number(id)
    case _ => RefId(r.ref)
  }

  /** The row an extractor lays out around a record's id value */
  function LayOut(e: Extractor, r: Record, id: Cell): (row: Row)
    requires id.Number? || id.NaN?
    ensures RowFits(ExtractorFields(e), row)
  {
    match e
    case EchoId(_) => [Text(r.formattedId), Text(r.refObjectName), id]
    case ArtifactRow(kind) => [Text(r.formattedId), Text(r.refObjectName), id, Text(KindLabel(kind))]
    case ProjectRow => [Text(r.refObjectName), id]
  }

  /** One row for one record; it always fits the extractor's fields */
  function Extract(e: Extractor, r: Record): (row: Row)
    ensures RowFits(ExtractorFields(e), row)
  {
    LayOut(e, r, IdCell(e, r))
  }

  // ---------------------------------------------------------------------
  // Row accumulation
  // ---------------------------------------------------------------------

  /** One extracted row per record, in record order */
  function Rows(e: Extractor, records: seq<Record>): seq<Row>
  {
    seq(|records|, i requires 0 <= i < |records| => Extract(e, records[i]))
  }

  /** The records a response contributes: all of them when `ok`, none
      otherwise */
  function Delivered(response: Response): seq<Record>
  {
    if response.ok then response.results else []
  }

  /** The frame after appending `rows` one by one: it gains them, in
      order, after the rows already there, and it is well formed exactly
      when `f` was and every new row fits its fields. */
  function AppendRows(f: Frame, rows: seq<Row>): (g: Frame)
    ensures g == Frame(f.fields, f.rows + rows)
    ensures WellFormed(g) <==> WellFormed(f) && forall i :: 0 <= i < |rows| ==> RowFits(f.fields, rows[i])
    decreases |rows|
  {
    if |rows| == 0 then
      assert f.rows + rows == f.rows;
      f
    else
      var f1 := AppendRow(f, rows[0]);
      assert f1.rows + rows[1..] == f.rows + rows;
      assert forall i :: 1 <= i < |rows| ==> rows[1..][i - 1] == rows[i];
      AppendRows(f1, rows[1..])
  }

  /** `fetchEntities`, which hands each result record to the extractor and
      appends the row it returns: when the call succeeds, one extracted row
      per result record is appended in record order; when it fails, the
      frame is left as it was. A well-formed frame with the extractor's
      fields stays well formed. */
  function FetchEntities(gw: Gateway, path: string, f: Frame, e: Extractor): (g: Frame)
    ensures !gw(path).ok ==> g == f
    ensures g == Frame(f.fields, f.rows + Rows(e, Delivered(gw(path))))
    ensures WellFormed(f) && f.fields == ExtractorFields(e) ==> WellFormed(g)
  {
    var rows := Rows(e, Delivered(gw(path)));
    assert forall i :: 0 <= i < |rows| ==> RowFits(ExtractorFields(e), rows[i]);
    AppendRows(f, rows)
  }

  // ---------------------------------------------------------------------
  // Fetchers
  // ---------------------------------------------------------------------

  /** One story by id: the frame has the key, name and id fields and one
      row per record the story's own path delivers. */
  function FetchStory(gw: Gateway, storyId: int): (f: Frame)
    ensures WellFormed(f) && f.fields == EntityFields
    ensures f.rows == Rows(EchoId(storyId), Delivered(gw(EntityPath(StoryResource, storyId))))
  {
    var path := EntityPath(StoryResource, storyId);
    var rows := Rows(EchoId(storyId), Delivered(gw(path)));
    var empty := EmptyFrame(EntityFields);
    assert empty.rows + rows == rows;
    var f := FetchEntities(gw, path, empty, EchoId(storyId));
    assert WellFormed(f) by {
      assert WellFormed(empty) && empty.fields == ExtractorFields(EchoId(storyId));
    }
    f
  }

  /** One defect by id: the frame has the key, name and id fields and one
      row per record the defect's own path delivers. */
  function FetchDefect(gw: Gateway, defectId: int): (f: Frame)
    ensures WellFormed(f) && f.fields == EntityFields
    ensures f.rows == Rows(EchoId(defectId), Delivered(gw(EntityPath(DefectResource, defectId))))
  {
    var path := EntityPath(DefectResource, defectId);
    var rows := Rows(EchoId(defectId), Delivered(gw(path)));
    var empty := EmptyFrame(EntityFields);
    assert empty.rows + rows == rows;
    var f := FetchEntities(gw, path, empty, EchoId(defectId));
    assert WellFormed(f) by {
      assert WellFormed(empty) && empty.fields == ExtractorFields(EchoId(defectId));
    }
    f
  }

  /** Stories, then defects, into one frame with the four in-progress
      fields: the delivered stories' rows followed by the delivered
      defects' rows, so a failed call contributes nothing and leaves the
      other call's rows in place. The project only shapes the filter of
      InProgressParams, which is never handed to the gateway, so it has no
      bearing on the result. */
  function FetchInProgressArtifacts(gw: Gateway, project: string): (f: Frame)
    ensures WellFormed(f) && f.fields == ArtifactFields
    ensures f.rows == Rows(ArtifactRow(UserStoryKind), Delivered(gw(StoryResource)))
                    + Rows(ArtifactRow(DefectKind), Delivered(gw(DefectResource)))
  {
    var empty := EmptyFrame(ArtifactFields);
    var storyRows := Rows(ArtifactRow(UserStoryKind), Delivered(gw(StoryResource)));
    var withStories := FetchEntities(gw, StoryResource, empty, ArtifactRow(UserStoryKind));
    assert empty.rows + storyRows == storyRows;
    assert WellFormed(withStories) by {
      assert WellFormed(empty) && empty.fields == ExtractorFields(ArtifactRow(UserStoryKind));
    }
    var f := FetchEntities(gw, DefectResource, withStories, ArtifactRow(DefectKind));
    assert WellFormed(f) by {
      assert withStories.fields == ExtractorFields(ArtifactRow(DefectKind));
    }
    f
  }

  /** Every project: the frame has the name and id fields and one row per
      record `/project` delivers. */
  function FetchProjects(gw: Gateway): (f: Frame)
    ensures WellFormed(f) && f.fields == ProjectFields
    ensures f.rows == Rows(ProjectRow, Delivered(gw(ProjectResource)))
  {
    var empty := EmptyFrame(ProjectFields);
    var rows := Rows(ProjectRow, Delivered(gw(ProjectResource)));
    assert empty.rows + rows == rows;
    var f := FetchEntities(gw, ProjectResource, empty, ProjectRow);
    assert WellFormed(f) by {
      assert WellFormed(empty) && empty.fields == ExtractorFields(ProjectRow);
    }
    f
  }

  /** The fields of the frame the fetcher of a mode builds */
  function ModeFields(m: Mode): seq<Field>
  {
    match m
    case Projects => ProjectFields
    case Story(_) => EntityFields
    case Defect(_) => EntityFields
    case InProgress(_) => ArtifactFields
  }

  /** `doRequest`: resolve, then run the chosen fetcher. Every frame it
      returns is well formed, carries the fields of the fetcher its query
      resolves to, and holds the rows that fetcher builds from what the
      service delivers. */
  function DoRequest(gw: Gateway, q: Query): (f: Frame)
    ensures WellFormed(f) && f.fields == ModeFields(Resolve(q))
    ensures Resolve(q).Projects? ==> f.rows == Rows(ProjectRow, Delivered(gw(ProjectResource)))
    ensures Resolve(q).Story? ==>
      f.rows == Rows(EchoId(q.storyId.value), Delivered(gw(EntityPath(StoryResource, q.storyId.value))))
    ensures Resolve(q).Defect? ==>
      f.rows == Rows(EchoId(q.defectId.value), Delivered(gw(EntityPath(DefectResource, q.defectId.value))))
    ensures Resolve(q).InProgress? ==>
      f.rows == Rows(ArtifactRow(UserStoryKind), Delivered(gw(StoryResource)))
              + Rows(ArtifactRow(DefectKind), Delivered(gw(DefectResource)))
  {
    match Resolve(q)
    case Projects => FetchProjects(gw)
    case Story(id) => FetchStory(gw, id)
    case Defect(id) => FetchDefect(gw, id)
    case InProgress(project) => FetchInProgressArtifacts(gw, project)
  }

  /** `query`: one frame per target, in target order */
  function RunQueries(gw: Gateway, targets: seq<Query>): (frames: seq<Frame>)
    ensures |frames| == |targets|
    ensures forall i :: 0 <= i < |targets| ==> frames[i] == DoRequest(gw, targets[i])
  {
    if |targets| == 0 then []
    else [DoRequest(gw, targets[0])] + RunQueries(gw, targets[1..])
  }

  // ---------------------------------------------------------------------
  // The in-progress filter
  // ---------------------------------------------------------------------

  const FilterHead := "((Project.Name = \""
  const FilterTail := "\") AND (c_KanbanState = \"In Progress\"))"

  /** The Rally query expression selecting a project's in-progress
      artifacts; the project name goes in verbatim, nothing escaped */
  function InProgressFilter(project: string): (filter: string)
    ensures |filter| == |FilterHead| + |project| + |FilterTail|
    ensures filter[..|FilterHead|] == FilterHead
    ensures filter[|FilterHead|..|FilterHead| + |project|] == project
    ensures filter[|FilterHead| + |project|..] == FilterTail
  {
    FilterHead + project + FilterTail
  }

  /** The parameters `fetchInProgressArtifacts` builds */
  datatype RequestParams = RequestParams(query: string, order: string, fetch: bool)

  /** The parameters carry the filter for the project, which can be read
      back out of them, newest first, with full records requested */
  function InProgressParams(project: string): (r: RequestParams)
    ensures FilterProject(r.query) == Some(project)
    ensures r.order == "LastUpdateDate desc" && r.fetch
  {
    RequestParams(InProgressFilter(project), "LastUpdateDate desc", true)
  }

  /** The project name a filter was built for, if it has the filter's shape */
  function FilterProject(filter: string): Option<string>
  {
    if |filter| >= |FilterHead| + |FilterTail|
       && filter[..|FilterHead|] == FilterHead
       && filter[|filter| - |FilterTail|..] == FilterTail
    then Some(filter[|FilterHead|..|filter| - |FilterTail|])
    else None
  }

  // ---------------------------------------------------------------------
  // Health check
  // ---------------------------------------------------------------------

  datatype HealthCheck = HealthCheck(status: string, message: string)

  const ErrorPrefix := "Error: "

  /** `testDatasource`: success exactly when the subscription call is ok,
      otherwise an error carrying the service's status text */
  function TestDatasource(gw: Gateway): (h: HealthCheck)
    ensures h.status == "success" <==> gw(SubscriptionResource).ok
    ensures h.status == "error" <==> !gw(SubscriptionResource).ok
    ensures gw(SubscriptionResource).ok ==> h.message == "Success"
    ensures !gw(SubscriptionResource).ok ==> h.message == ErrorPrefix + gw(SubscriptionResource).statusText
  {
    var response := gw(SubscriptionResource);
    HealthCheck(
      if response.ok then "success" else "error",
      if response.ok then "Success" else ErrorPrefix + response.statusText)
  }
}
