/** Which error the encoder raises: the first obstacle that it meets on its way through the tables. */
module JsonErrors {
  import opened Wrappers
  import opened JsonModel

  /** A value that the encoder comes to, with how deep it is then and how much of the Lua stack is in use. */
  datatype Site = Site(value: Value, depth: int, height: int)

  /** What keeps a value from being encoded, whatever is nested in it. */
  ghost function Obstacle(c: Config, s: Site): (r: Option<Error>) {
    match s.value
    case NonFinite => Some(DoubleError)
    case Opaque => Some(NotEncodable)
    case TableRef(_) =>
      if s.depth >= c.maxDepth then Some(TooDeep) else if s.height > c.slots - 4 then Some(StackOverflow) else None
    case _ => None
  }

  ghost function ChildSite(h: Heap, c: Config, s: Site, i: nat): (r: Site)
    requires s.value.TableRef? && i < |Children(h(s.value.id), c)|
  {
    Site(Children(h(s.value.id), c)[i].value, s.depth + 1, ChildHeight(h(s.value.id), c, s.height))
  }

  /** Where the encoder is when it has gone to child path[0], in there to child path[1], and so on: it goes into
      tables that are no obstacle themselves. */
  ghost function SiteAt(h: Heap, c: Config, s: Site, path: seq<nat>): (r: Option<Site>)
    decreases |path|
  {
    if path == [] then Some(s)
    else if s.value.TableRef? && Obstacle(c, s).None? && path[0] < |Children(h(s.value.id), c)|
    then SiteAt(h, c, ChildSite(h, c, s, path[0]), path[1..])
    else None
  }

  /** The order in which the encoder comes to its sites: a table before what is nested in it, children in order. */
  ghost predicate Before(p: seq<nat>, q: seq<nat>)
    decreases |p|
  {
    q != [] && (p == [] || p[0] < q[0] || (p[0] == q[0] && Before(p[1..], q[1..])))
  }

  /** There is no obstacle at this place, if there is such a place. */
  ghost predicate Clear(h: Heap, c: Config, s: Site, path: seq<nat>) {
    SiteAt(h, c, s, path).Some? ==> Obstacle(c, SiteAt(h, c, s, path).value).None?
  }

  ghost predicate IsFirstObstacle(h: Heap, c: Config, s: Site, path: seq<nat>, e: Error) {
    && SiteAt(h, c, s, path).Some? && Obstacle(c, SiteAt(h, c, s, path).value) == Some(e)
    && forall q :: Before(q, path) ==> Clear(h, c, s, q)
  }

  ghost function Outcome(h: Heap, c: Config, s: Site): (r: Result<Json, Error>) {
    Denote(h, c, s.value, s.depth, s.height)
  }

  // ---- Going into a child

  lemma {:induction false} IntoChild(h: Heap, c: Config, s: Site, i: nat, path: seq<nat>)
    requires s.value.TableRef? && Obstacle(c, s).None? && i < |Children(h(s.value.id), c)|
    ensures SiteAt(h, c, s, [i] + path) == SiteAt(h, c, ChildSite(h, c, s, i), path)
  {
    assert ([i] + path)[1..] == path;
  }

  /** The first child that fails, and its error. */
  lemma {:induction false} FirstFailingChild(h: Heap, c: Config, cs: seq<Child>, depth: int, height: int)
    returns (i: nat)
    requires DenoteItems(h, c, cs, depth, height).Err?
    ensures i < |cs| && Denote(h, c, cs[i].value, depth, height) == Err(DenoteItems(h, c, cs, depth, height).error)
    ensures forall j :: 0 <= j < i ==> Denote(h, c, cs[j].value, depth, height).Ok?
    decreases |cs|
  {
    var init := cs[..|cs| - 1];
    if DenoteItems(h, c, init, depth, height).Err? {
      i := FirstFailingChild(h, c, init, depth, height);
      assert forall j :: 0 <= j < |init| ==> init[j] == cs[j];
    } else {
      i := |cs| - 1;
      ItemsOfChildren(h, c, init, depth, height);
      assert forall j :: 0 <= j < |init| ==> init[j] == cs[j];
    }
  }

  /** A value with an obstacle of its own fails with it; a table without one fails as its children do. */
  lemma {:induction false} OutcomeByObstacle(h: Heap, c: Config, s: Site)
    ensures Obstacle(c, s).Some? ==> Outcome(h, c, s) == Err(Obstacle(c, s).value)
    ensures Obstacle(c, s).None? && !s.value.TableRef? ==> Outcome(h, c, s).Ok?
    ensures Obstacle(c, s).None? && s.value.TableRef? ==>
              var t := h(s.value.id);
              var r := DenoteItems(h, c, Children(t, c), s.depth + 1, ChildHeight(t, c, s.height));
              && s.depth + 1 <= c.maxDepth && (Outcome(h, c, s).Ok? <==> r.Ok?)
              && (r.Err? ==> Outcome(h, c, s) == Err(r.error))
  {
    if s.value.TableRef? {
      assert Outcome(h, c, s) == DenoteTable(h, c, h(s.value.id), s.depth + 1, s.height);
    }
  }

  // ---- Success

  /** Whatever is encoded has no obstacle anywhere. */
  lemma {:induction false} SuccessIsClear(h: Heap, c: Config, s: Site, path: seq<nat>)
    requires Outcome(h, c, s).Ok?
    ensures Clear(h, c, s, path)
    decreases |path|
  {
    hide Denote, DenoteItems, Children;
    OutcomeByObstacle(h, c, s);
    if path != [] && SiteAt(h, c, s, path).Some? {
      var t, height' := h(s.value.id), ChildHeight(h(s.value.id), c, s.height);
      ItemsOfChildren(h, c, Children(t, c), s.depth + 1, height');
      SuccessIsClear(h, c, ChildSite(h, c, s, path[0]), path[1..]);
    }
  }

  // ---- Failure

  lemma {:induction false} ClearInChild(h: Heap, c: Config, s: Site, q: seq<nat>)
    requires s.value.TableRef? && Obstacle(c, s).None? && q != [] && q[0] < |Children(h(s.value.id), c)|
    requires Clear(h, c, ChildSite(h, c, s, q[0]), q[1..])
    ensures Clear(h, c, s, q)
  {
    IntoChild(h, c, s, q[0], q[1..]);
    assert q == [q[0]] + q[1..];
  }

  lemma {:induction false} FirstInChild(h: Heap, c: Config, s: Site, i: nat, path: seq<nat>, e: Error)
    requires s.value.TableRef? && Obstacle(c, s).None? && i < |Children(h(s.value.id), c)|
    requires IsFirstObstacle(h, c, ChildSite(h, c, s, i), path, e)
    requires forall j :: 0 <= j < i ==> Outcome(h, c, ChildSite(h, c, s, j)).Ok?
    ensures IsFirstObstacle(h, c, s, [i] + path, e)
  {
    hide Children, Outcome, Obstacle;
    IntoChild(h, c, s, i, path);
    assert ([i] + path)[1..] == path;
    forall q | Before(q, [i] + path)
      ensures Clear(h, c, s, q)
    {
      if q != [] {
        if q[0] < i {
          SuccessIsClear(h, c, ChildSite(h, c, s, q[0]), q[1..]);
        } else {
          assert Clear(h, c, ChildSite(h, c, s, i), q[1..]);
        }
        ClearInChild(h, c, s, q);
      }
    }
  }

  /** Whatever fails has a first obstacle, and fails with it. */
  lemma {:induction false} FailureHasObstacle(h: Heap, c: Config, s: Site) returns (path: seq<nat>)
    requires Outcome(h, c, s).Err?
    ensures IsFirstObstacle(h, c, s, path, Outcome(h, c, s).error)
    decreases Rank(c, s.depth)
  {
    hide Denote, DenoteItems, Children;
    OutcomeByObstacle(h, c, s);
    if Obstacle(c, s).Some? {
      path := [];
    } else {
      var t, height' := h(s.value.id), ChildHeight(h(s.value.id), c, s.height);
      var i := FirstFailingChild(h, c, Children(t, c), s.depth + 1, height');
      path := FailureHasObstacle(h, c, ChildSite(h, c, s, i));
      FirstInChild(h, c, s, i, path, Outcome(h, c, s).error);
      path := [i] + path;
    }
  }

  lemma {:induction false} OneIsFirst(p: seq<nat>, q: seq<nat>)
    ensures p == q || Before(p, q) || Before(q, p)
    decreases |p|
  {
    if p != [] && q != [] {
      OneIsFirst(p[1..], q[1..]);
      assert p == [p[0]] + p[1..] && q == [q[0]] + q[1..];
    }
  }

  /** The encoder fails with an error if and only if that is its first obstacle; so it succeeds if and only if
      there is none. */
  lemma {:induction false} ErrorIsFirstObstacle(h: Heap, c: Config, v: Value, depth: int, height: int, e: Error)
    ensures Denote(h, c, v, depth, height) == Err(e) <==>
              exists path :: IsFirstObstacle(h, c, Site(v, depth, height), path, e)
    ensures Denote(h, c, v, depth, height).Ok? <==> forall path :: Clear(h, c, Site(v, depth, height), path)
  {
    hide Denote, SiteAt;
    var s := Site(v, depth, height);
    if Outcome(h, c, s).Ok? {
      forall path
        ensures Clear(h, c, s, path)
      {
        SuccessIsClear(h, c, s, path);
      }
      forall path
        ensures !IsFirstObstacle(h, c, s, path, e)
      {
        assert Clear(h, c, s, path);
      }
    } else {
      var first := FailureHasObstacle(h, c, s);
      assert !Clear(h, c, s, first);
      forall path | IsFirstObstacle(h, c, s, path, e)
        ensures path == first
      {
        OneIsFirst(path, first);
      }
    }
  }
}
