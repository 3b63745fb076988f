/** Properties of the data source that relate several of its operations:
    the dispatch precedence, the shape and content of every frame, the
    reading of ids from references, the in-progress filter and the health
    check. */
module DataSourceProperties {
  import opened Wrappers
  import opened JsBuiltins
  import opened Frames
  import opened DataSource

  // ---------------------------------------------------------------------
  // Dispatch
  // ---------------------------------------------------------------------

  /** An absent or empty project lists projects, whatever ids are set */
  lemma MissingProjectListsProjects(gw: Gateway, q: Query)
    requires q.project == None || q.project == Some("")
    ensures DoRequest(gw, q) == FetchProjects(gw)
  {
  }

  /** With a project, a story id of 0 counts as absent: the defect id, or
      failing that the in-progress listing, decides. */
  lemma ZeroStoryIdFallsThrough(q: Query)
    requires IsTruthyText(q.project) && q.storyId == Some(0)
    ensures Resolve(q) ==
      if IsTruthyNumber(q.defectId) then Defect(q.defectId.value) else InProgress(q.project.value)
  {
  }

  lemma PrecedenceExamples()
    ensures Resolve(Query("A", Some(""), Some(5), Some(7))) == Projects
    ensures Resolve(Query("A", None, Some(5), Some(7))) == Projects
    ensures Resolve(Query("A", Some("Acme"), Some(5), Some(7))) == Story(5)
    ensures Resolve(Query("A", Some("Acme"), Some(0), Some(7))) == Defect(7)
    ensures Resolve(Query("A", Some("Acme"), None, Some(0))) == InProgress("Acme")
  {
  }

  // ---------------------------------------------------------------------
  // Frame contents
  // ---------------------------------------------------------------------

  /** A story or defect row: the record's key and name, then the queried id */
  lemma EchoIdRowCells(id: int, r: Record)
    ensures Extract(EchoId(id), r) == [Text(r.formattedId), Text(r.refObjectName), Number(id)]
  {
  }

  /** An in-progress row: the record's key and name, the id read from its
      reference, then the kind's label */
  lemma ArtifactRowCells(kind: ArtifactKind, r: Record)
    ensures Extract(ArtifactRow(kind), r)
      == [Text(r.formattedId), Text(r.refObjectName), RefId(r.ref), Text(KindLabel(kind))]
  {
  }

  /** A project row: the record's name, then the id read from its reference */
  lemma ProjectRowCells(r: Record)
    ensures Extract(ProjectRow, r) == [Text(r.refObjectName), RefId(r.ref)]
  {
  }

  /** A story or defect frame holds one (key, name, id) row per delivered
      record: the record's `FormattedID`, its `_refObjectName`, and the
      queried id, whatever the record holds. */
  lemma EchoedRowCells(gw: Gateway, path: string, id: int)
    ensures var f := FetchEntities(gw, path, EmptyFrame(EntityFields), EchoId(id));
      && |f.rows| == |Delivered(gw(path))|
      && forall i :: 0 <= i < |f.rows| ==>
           f.rows[i] == [Text(Delivered(gw(path))[i].formattedId),
                         Text(Delivered(gw(path))[i].refObjectName),
                         Number(id)]
  {
    var f := FetchEntities(gw, path, EmptyFrame(EntityFields), EchoId(id));
    var records := Delivered(gw(path));
    assert f.rows == Rows(EchoId(id), records);
    forall i | 0 <= i < |f.rows|
      ensures f.rows[i] == [Text(records[i].formattedId), Text(records[i].refObjectName), Number(id)]
    {
      EchoIdRowCells(id, records[i]);
    }
  }

  /** The `id` column of a story or defect frame repeats the queried id on
      every row, whatever the records hold. */
  lemma EchoedIdColumn(gw: Gateway, path: string, id: int)
    ensures var f := FetchEntities(gw, path, EmptyFrame(EntityFields), EchoId(id));
      && f.rows == Rows(EchoId(id), Delivered(gw(path)))
      && ColumnValues(f, "id") == Some(seq(|f.rows|, _ => Number(id)))
  {
    var f := FetchEntities(gw, path, EmptyFrame(EntityFields), EchoId(id));
    EchoedRowCells(gw, path, id);
    assert EmptyFrame(EntityFields).rows + Rows(EchoId(id), Delivered(gw(path)))
      == Rows(EchoId(id), Delivered(gw(path)));
    assert FieldIndex(EntityFields, "id") == Some(2);
    assert ColumnValues(f, "id").value == seq(|f.rows|, _ => Number(id));
  }

  lemma StoryFrameEchoesStoryId(gw: Gateway, q: Query)
    requires Resolve(q).Story?
    ensures var f := DoRequest(gw, q);
      && f.rows == Rows(EchoId(q.storyId.value), Delivered(gw(EntityPath(StoryResource, q.storyId.value))))
      && ColumnValues(f, "id") == Some(seq(|f.rows|, _ => Number(q.storyId.value)))
  {
    EchoedIdColumn(gw, EntityPath(StoryResource, q.storyId.value), q.storyId.value);
  }

  lemma DefectFrameEchoesDefectId(gw: Gateway, q: Query)
    requires Resolve(q).Defect?
    ensures var f := DoRequest(gw, q);
      && f.rows == Rows(EchoId(q.defectId.value), Delivered(gw(EntityPath(DefectResource, q.defectId.value))))
      && ColumnValues(f, "id") == Some(seq(|f.rows|, _ => Number(q.defectId.value)))
  {
    EchoedIdColumn(gw, EntityPath(DefectResource, q.defectId.value), q.defectId.value);
  }

  /** Every row of an in-progress frame: the delivered stories' rows come
      first, each (key, name, id read from the reference, `userstory`),
      then the delivered defects' rows, each (key, name, id, `defect`). */
  lemma InProgressRowCells(gw: Gateway, project: string)
    ensures var f := FetchInProgressArtifacts(gw, project);
      var stories := Delivered(gw(StoryResource));
      var defects := Delivered(gw(DefectResource));
      && |f.rows| == |stories| + |defects|
      && (forall j :: 0 <= j < |stories| ==>
            f.rows[j] == [Text(stories[j].formattedId), Text(stories[j].refObjectName),
                          RefId(stories[j].ref), Text("userstory")])
      && (forall j :: |stories| <= j < |f.rows| ==>
            f.rows[j] == [Text(defects[j - |stories|].formattedId), Text(defects[j - |stories|].refObjectName),
                          RefId(defects[j - |stories|].ref), Text("defect")])
  {
    InProgressStoryRows(gw, project);
    InProgressDefectRows(gw, project);
  }

  /** The first rows of an in-progress frame are the stories' */
  lemma InProgressStoryRows(gw: Gateway, project: string)
    ensures var f := FetchInProgressArtifacts(gw, project);
      var stories := Delivered(gw(StoryResource));
      && |stories| <= |f.rows|
      && forall j :: 0 <= j < |stories| ==>
           f.rows[j] == [Text(stories[j].formattedId), Text(stories[j].refObjectName),
                         RefId(stories[j].ref), Text("userstory")]
  {
    var f := FetchInProgressArtifacts(gw, project);
    var stories := Delivered(gw(StoryResource));
    forall j | 0 <= j < |stories|
      ensures f.rows[j] == [Text(stories[j].formattedId), Text(stories[j].refObjectName),
                            RefId(stories[j].ref), Text("userstory")]
    {
      InProgressRowAt(gw, project, j);
    }
  }

  /** The rows after the stories' are the defects', to the end */
  lemma InProgressDefectRows(gw: Gateway, project: string)
    ensures var f := FetchInProgressArtifacts(gw, project);
      var stories := Delivered(gw(StoryResource));
      var defects := Delivered(gw(DefectResource));
      && |f.rows| == |stories| + |defects|
      && forall j :: |stories| <= j < |f.rows| ==>
           f.rows[j] == [Text(defects[j - |stories|].formattedId), Text(defects[j - |stories|].refObjectName),
                         RefId(defects[j - |stories|].ref), Text("defect")]
  {
    var f := FetchInProgressArtifacts(gw, project);
    var stories := Delivered(gw(StoryResource));
    var defects := Delivered(gw(DefectResource));
    forall j | |stories| <= j < |f.rows|
      ensures f.rows[j] == [Text(defects[j - |stories|].formattedId), Text(defects[j - |stories|].refObjectName),
                            RefId(defects[j - |stories|].ref), Text("defect")]
    {
      InProgressRowAt(gw, project, j);
    }
  }

  /** Row `j` of an in-progress frame, from a story when j falls among the
      stories and from a defect otherwise */
  lemma InProgressRowAt(gw: Gateway, project: string, j: int)
    requires 0 <= j < |FetchInProgressArtifacts(gw, project).rows|
    ensures var f := FetchInProgressArtifacts(gw, project);
      var stories := Delivered(gw(StoryResource));
      var defects := Delivered(gw(DefectResource));
      && |f.rows| == |stories| + |defects|
      && (j < |stories| ==>
            f.rows[j] == [Text(stories[j].formattedId), Text(stories[j].refObjectName),
                          RefId(stories[j].ref), Text("userstory")])
      && (j >= |stories| ==>
            f.rows[j] == [Text(defects[j - |stories|].formattedId), Text(defects[j - |stories|].refObjectName),
                          RefId(defects[j - |stories|].ref), Text("defect")])
  {
    var f := FetchInProgressArtifacts(gw, project);
    var stories := Delivered(gw(StoryResource));
    var defects := Delivered(gw(DefectResource));
    var storyRows := Rows(ArtifactRow(UserStoryKind), stories);
    var defectRows := Rows(ArtifactRow(DefectKind), defects);
    assert f.rows == storyRows + defectRows;
    if j < |stories| {
      assert f.rows[j] == storyRows[j] == Extract(ArtifactRow(UserStoryKind), stories[j]);
      ArtifactRowCells(UserStoryKind, stories[j]);
    } else {
      assert f.rows[j] == defectRows[j - |stories|] == Extract(ArtifactRow(DefectKind), defects[j - |stories|]);
      ArtifactRowCells(DefectKind, defects[j - |stories|]);
    }
  }

  /** The project filter never reaches the gateway, so the in-progress
      frame is the same for every project. */
  lemma InProgressIgnoresProject(gw: Gateway, p1: string, p2: string)
    ensures FetchInProgressArtifacts(gw, p1) == FetchInProgressArtifacts(gw, p2)
  {
  }

  /** A project frame holds one (name, id) row per delivered record; an
      empty result gives the two fields and no rows. */
  lemma ProjectFrameRows(gw: Gateway)
    ensures var f := FetchProjects(gw);
      && f.fields == ProjectFields
      && |f.rows| == |Delivered(gw(ProjectResource))|
      && forall i :: 0 <= i < |f.rows| ==>
           f.rows[i] == [Text(Delivered(gw(ProjectResource))[i].refObjectName),
                         RefId(Delivered(gw(ProjectResource))[i].ref)]
  {
    var f := FetchProjects(gw);
    var projects := Delivered(gw(ProjectResource));
    forall i | 0 <= i < |f.rows|
      ensures f.rows[i] == [Text(projects[i].refObjectName), RefId(projects[i].ref)]
    {
      ProjectRowCells(projects[i]);
    }
  }

  // ---------------------------------------------------------------------
  // Reference ids
  // ---------------------------------------------------------------------

  /** A reference whose last segment starts with an integer yields that
      integer, whatever comes before the last `/`. */
  lemma RefIdOfTrailingNumber(prefix: string, n: int, tail: string)
    requires '/' !in tail
    requires |tail| == 0 || !IsDigit(tail[0])
    ensures RefId(prefix + "/" + IntToString(n) + tail) == Number(n)
  {
    var seg := IntToString(n) + tail;
    IntToStringShape(n);
    assert prefix + "/" + IntToString(n) + tail == prefix + "/" + seg;
    ParseIntOfIntToString("", n, tail);
    assert "" + IntToString(n) + tail == seg;
    RefIdOfSegment(prefix, seg);
  }

  /** The id of `prefix ++ "/" ++ seg` is read from `seg` alone */
  lemma RefIdOfSegment(prefix: string, seg: string)
    requires '/' !in seg
    ensures RefId(prefix + "/" + seg) == match ParseInt(seg) case Some(n) => Number(n) case None => NaN
  {
    LastSegmentAfterSlash(prefix, seg);
  }

  lemma RefIdExample()
    ensures RefId("https://rally1.rallydev.com/slm/webservice/v2.0/project/123") == Number(123)
  {
    assert IntToString(123) == "123";
    RefIdOfTrailingNumber("https://rally1.rallydev.com/slm/webservice/v2.0/project", 123, "");
    assert "https://rally1.rallydev.com/slm/webservice/v2.0/project" + "/" + "123" + ""
      == "https://rally1.rallydev.com/slm/webservice/v2.0/project/123";
  }

  /** A reference ending in `/` has an empty last segment, hence NaN. */
  lemma RefIdOfTrailingSlash(prefix: string)
    ensures RefId(prefix + "/") == NaN
  {
    var ref := prefix + "/";
    assert ref == prefix + "/" + "";
    LastSegmentAfterSlash(prefix, "");
    ParseIntWithoutDigits("");
  }

  /** The path of a story or defect ends in its id, so the reference the
      service gives that record reads back as the queried id. */
  lemma EntityPathEndsWithId(resource: string, id: int)
    ensures RefId(EntityPath(resource, id)) == Number(id)
  {
    RefIdOfTrailingNumber(resource, id, "");
    assert resource + "/" + IntToString(id) + "" == EntityPath(resource, id);
  }

  // ---------------------------------------------------------------------
  // The in-progress filter
  // ---------------------------------------------------------------------

  /** The project name can be read back from the filter built for it */
  lemma FilterProjectRoundTrip(project: string)
    ensures FilterProject(InProgressFilter(project)) == Some(project)
  {
    var filter := InProgressFilter(project);
    assert filter[|filter| - |FilterTail|..] == FilterTail;
  }

  lemma FilterInjective(p1: string, p2: string)
    requires InProgressFilter(p1) == InProgressFilter(p2)
    ensures p1 == p2
  {
    FilterProjectRoundTrip(p1);
    FilterProjectRoundTrip(p2);
  }

  /** The longest quote-free prefix of `s`: how far a string literal that
      opens just before `s` extends */
  function TakeUntilQuote(s: string): (r: string)
    ensures |r| <= |s| && r == s[..|r|]
    ensures '"' !in r
    ensures |r| < |s| ==> s[|r|] == '"'
  {
    if |s| == 0 || s[0] == '"' then ""
    else
      var rest := TakeUntilQuote(s[1..]);
      assert ([s[0]] + rest)[1..] == rest;
      [s[0]] + rest
  }

  /** The project name the service reads out of a filter: the text after
      `Project.Name = "` up to the next quote */
  function QuotedName(filter: string): Option<string>
  {
    if |filter| >= |FilterHead| && filter[..|FilterHead|] == FilterHead
    then Some(TakeUntilQuote(filter[|FilterHead|..]))
    else None
  }

  lemma {:induction false} TakeUntilQuoteOfQuoteFree(a: string, b: string)
    requires '"' !in a
    requires |b| > 0 && b[0] == '"'
    ensures TakeUntilQuote(a + b) == a
    decreases |a|
  {
    if |a| > 0 {
      assert (a + b)[1..] == a[1..] + b;
      TakeUntilQuoteOfQuoteFree(a[1..], b);
      assert a == [a[0]] + a[1..];
    } else {
      assert a + b == b;
    }
  }

  /** Nothing is escaped: the service reads back exactly the project name
      if and only if the name holds no quote; a quote in the name closes
      the literal early and the rest of the name becomes query text. */
  lemma QuotedNameIsProjectIffQuoteFree(project: string)
    ensures QuotedName(InProgressFilter(project)) == Some(project) <==> '"' !in project
  {
    var filter := InProgressFilter(project);
    var slot := filter[|FilterHead|..];
    assert slot == project + FilterTail;
    if '"' !in project {
      TakeUntilQuoteOfQuoteFree(project, FilterTail);
    }
  }

  // ---------------------------------------------------------------------
  // Health check
  // ---------------------------------------------------------------------

  /** The message alone tells success from failure, and a failure's
      message ends with the service's status text. */
  lemma HealthMessageRevealsOutcome(gw: Gateway)
    ensures TestDatasource(gw).message == "Success" <==> gw(SubscriptionResource).ok
    ensures !gw(SubscriptionResource).ok ==>
      TestDatasource(gw).message[|ErrorPrefix|..] == gw(SubscriptionResource).statusText
  {
    var h := TestDatasource(gw);
    if !gw(SubscriptionResource).ok {
      assert h.message[..|ErrorPrefix|] == ErrorPrefix;
      assert h.message[0] == 'E';
    }
  }
}
