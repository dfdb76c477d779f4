/**
  Route readback: the vehicle pages a route two waypoints to a frame, the ground reassembles the
  pages, and frames may fail to be written or be lost on the way.
 */
module RouteReadback {
  import opened Bytes
  import opened AirFrame
  import Dl2
  import GroundStreamProofs

  // ---- Vehicle: paging ----

  /** A route snapshot as it arrives on the message bus. */
  datatype Snapshot = Snapshot(routeType: byte, count: byte, waypoints: seq<Waypoint>)

  predicate ValidSnapshot(m: Snapshot) { |m.waypoints| == MAX_WAYPOINTS }

  function Clamped(count: byte): byte { if count as int > MAX_WAYPOINTS then MAX_WAYPOINTS else count }

  /** Starts a readback session; entries past the count keep what an earlier route left there. */
  function Begin(r: Route, m: Snapshot): (r': Route)
    requires |r.waypoints| == MAX_WAYPOINTS && ValidSnapshot(m)
    ensures ValidRoute(r')
  {
    var n := Clamped(m.count);
    var total := if n == 0 then 0 else (n + 1) / 2;
    Route(total > 0, m.routeType, n, 0, total, m.waypoints[..n] + r.waypoints[n..])
  }

  /** After a frame has been written whole. */
  function AfterWrite(r: Route): Route {
    if !r.pending then r
    else if r.pageIndex as int + 1 >= r.totalPages as int then r.(pending := false, pageIndex := 0)
    else r.(pageIndex := r.pageIndex + 1)
  }

  // ---- Ground: reassembly ----

  datatype Assembly = Assembly(routeType: Option<byte>, total: Option<byte>, pages: map<nat, seq<Dl2.PageWaypoint>>)

  const EMPTY: Assembly := Assembly(None, None, map[])

  datatype Assembled = Assembled(state: Assembly, route: Option<seq<Dl2.PageWaypoint>>)

  /** The first `n` pages in order, or nothing if one is missing. */
  function Joined(pages: map<nat, seq<Dl2.PageWaypoint>>, n: nat): Option<seq<Dl2.PageWaypoint>> {
    if n == 0 then Some([])
    else if n - 1 !in pages then None
    else
      match Joined(pages, n - 1)
      case None => None
      case Some(s) => Some(s + pages[n - 1])
  }

  function Stored(a: Assembly, p: Dl2.Page): Assembly {
    var newSession := a.total != Some(p.total) || a.routeType != Some(p.routeType) || (p.index == 0 && |a.pages| > 0);
    if newSession then Assembly(Some(p.routeType), Some(p.total), map[p.index as nat := p.waypoints])
    else a.(pages := a.pages[p.index as nat := p.waypoints])
  }

  function Assemble(a: Assembly, f: Dl2.Frame): Assembled {
    if !Dl2.HasPage(f.flags) || f.page.None? then Assembled(a, None)
    else
      var p := f.page.value;
      var b := Stored(a, p);
      Assembled(b, if p.total != 0 && |b.pages| >= p.total as int then Joined(b.pages, p.total as nat) else None)
  }

  class RouteReadbackAssembler {
    var routeType: Option<byte>
    var totalPages: Option<byte>
    var pages: map<nat, seq<Dl2.PageWaypoint>>

    function State(): Assembly
      reads this
    {
      Assembly(routeType, totalPages, pages)
    }

    constructor ()
      ensures State() == EMPTY
    {
      routeType, totalPages, pages := None, None, map[];
    }

    /** Stores the page of a frame, and returns the route once all its pages are there. */
    method Feed(f: Dl2.Frame) returns (route: Option<seq<Dl2.PageWaypoint>>)
      modifies this
      ensures Assembled(State(), route) == Assemble(old(State()), f)
    {
      if !Dl2.HasPage(f.flags) || f.page.None? {
        return None;
      }
      var p := f.page.value;
      if totalPages != Some(p.total) || routeType != Some(p.routeType) || (p.index == 0 && |pages| > 0) {
        pages := map[];
        routeType := Some(p.routeType);
        totalPages := Some(p.total);
      }
      pages := pages[p.index as nat := p.waypoints];
      if p.total != 0 && |pages| >= p.total as int {
        var waypoints: seq<Dl2.PageWaypoint> := [];
        for i := 0 to p.total as int
          invariant Joined(pages, i) == Some(waypoints)
        {
          if i !in pages {
            MissingPage(pages, i, p.total as int);
            return None;
          }
          waypoints := waypoints + pages[i];
        }
        return Some(waypoints);
      }
      return None;
    }
  }

  lemma {:induction false} MissingPage(pages: map<nat, seq<Dl2.PageWaypoint>>, i: nat, n: nat)
    requires i < n && i !in pages
    ensures Joined(pages, n) == None
  {
    if n > i + 1 {
      MissingPage(pages, i, n - 1);
    }
  }

  // ---- Both ends together ----

  /** Either a new snapshot reaches the vehicle, or a cycle tries to send a frame built from `a` with
      the current route: it may be written, and a written frame may be delivered. */
  datatype Event = NewRoute(m: Snapshot) | Cycle(a: Source, written: bool, delivered: bool)

  /** `sent` and `arrived` record the pages of the current session that were written and delivered;
      `held` is what the ground held when the session began. */
  datatype System = System(route: Route, ground: Assembly, sent: nat, arrived: set<nat>, held: Assembly)

  datatype Stepped = Stepped(sys: System, route: Option<seq<Dl2.PageWaypoint>>)

  predicate ValidEvent(e: Event) { e.NewRoute? ==> ValidSnapshot(e.m) }

  /** The frame on the air: the source with the current route, encoded and decoded again. */
  function OnAir(a: Source, r: Route): Dl2.Frame
    requires InBounds(r)
  {
    Dl2.Decode(FrameBytes(a.(route := r)))
  }

  ghost function Step(s: System, e: Event): Stepped
    requires ValidRoute(s.route) && ValidEvent(e)
  {
    match e
    case NewRoute(m) => Stepped(System(Begin(s.route, m), s.ground, 0, {}, s.ground), None)
    case Cycle(a, written, delivered) =>
      if !written then Stepped(s, None)
      else
        var g := if delivered then Assemble(s.ground, OnAir(a, s.route)) else Assembled(s.ground, None);
        var paged := s.route.pending;
        Stepped(System(AfterWrite(s.route), g.state,
                       if paged then s.sent + 1 else s.sent,
                       if paged && delivered then s.arrived + {s.route.pageIndex as nat} else s.arrived,
                       s.held),
                g.route)
  }

  /** The first page of a session is delivered whenever it is written. */
  ghost predicate FirstPageDelivered(s: System, e: Event) {
    e.Cycle? && e.written && s.route.pending && s.route.pageIndex == 0 ==> e.delivered
  }

  /** What the ground should get back. */
  function Expected(r: Route): seq<Dl2.PageWaypoint>
    requires InBounds(r)
  {
    seq(r.count, k requires 0 <= k < r.count => PageView(r.waypoints[k]))
  }

  /** The waypoints of page `i`; a page beyond the last is empty. */
  function PageOf(r: Route, i: nat): seq<Dl2.PageWaypoint>
    requires InBounds(r)
  {
    if 2 * i >= r.count as int then []
    else if 2 * i + 2 <= r.count as int then Expected(r)[2 * i..2 * i + 2]
    else Expected(r)[2 * i..r.count]
  }

  // ---- What the ground holds during a session ----

  /** The ground takes the session for the one it already holds pages of. */
  predicate LooksTheSame(held: Assembly, r: Route) {
    held.routeType == Some(r.routeType) && held.total == Some(r.totalPages)
  }

  /** The pages of earlier sessions that the ground still uses once pages `arrived` have come: all it held,
      unless the first page came, or the session looks different. */
  function Stale(held: Assembly, r: Route, arrived: set<nat>): map<nat, seq<Dl2.PageWaypoint>> {
    if 0 in arrived || !LooksTheSame(held, r) then map[] else held.pages
  }

  function Patched(held: Assembly, r: Route, arrived: set<nat>): map<nat, seq<Dl2.PageWaypoint>>
    requires InBounds(r)
  {
    var stale := Stale(held, r, arrived);
    map i | i in stale.Keys + arrived :: if i in arrived then PageOf(r, i) else stale[i]
  }

  function GroundDuring(held: Assembly, r: Route, arrived: set<nat>): Assembly
    requires InBounds(r)
  {
    if arrived == {} then held else Assembly(Some(r.routeType), Some(r.totalPages), Patched(held, r, arrived))
  }

  /** An assembly that names a total holds a page, and only pages below the total. */
  ghost predicate WellHeld(a: Assembly) {
    && (a.total == None ==> a.pages == map[])
    && (a.total.Some? ==> a.pages != map[] && forall i :: i in a.pages ==> i < a.total.value as int)
  }

  ghost predicate Inv(s: System) {
    && ValidRoute(s.route)
    && s.sent <= s.route.totalPages as int
    && (s.route.pending <==> s.sent < s.route.totalPages as int)
    && (s.route.pending ==> s.route.pageIndex as int == s.sent)
    && (forall i :: i in s.arrived ==> 0 <= i < s.sent)
    && WellHeld(s.held) && s.ground == GroundDuring(s.held, s.route, s.arrived)
  }

  lemma PageDueIsPageOf(r: Route)
    requires ValidRoute(r) && r.pending
    ensures PageDue(r) == Dl2.Page(r.routeType, r.pageIndex, r.totalPages, PageOf(r, r.pageIndex as nat))
  {
    var i: int := r.pageIndex;
    assert StartIndex(r.pageIndex) as int == 2 * i;
  }

  lemma OnAirPage(a: Source, r: Route)
    requires ValidRoute(r)
    ensures var f := OnAir(a, r);
            && f.page == (if r.pending then Some(PageDue(r)) else None)
            && (Dl2.HasPage(f.flags) <==> r.pending)
  {
    hide Dl2.Decode, FrameBytes, GroundStreamProofs.ValidWire;
    var b := a.(route := r);
    DecodesView(b);
    PageBit(b);
  }

  lemma PageBit(a: Source)
    ensures Dl2.HasPage(Flags(a, MAX_FRAME_LEN)) <==> a.route.pending
  {
  }

  lemma SameGround(held: Assembly, r: Route, arrived: set<nat>)
    requires ValidRoute(r)
    ensures GroundDuring(held, AfterWrite(r), arrived) == GroundDuring(held, r, arrived)
  {
    assert forall i: nat :: PageOf(AfterWrite(r), i) == PageOf(r, i);
  }

  lemma PatchOne(held: Assembly, r: Route, arrived: set<nat>, i: nat)
    requires InBounds(r) && (i > 0 || arrived == {})
    ensures Patched(held, r, arrived + {i})
            == (if arrived == {} then Stale(held, r, {i}) else Patched(held, r, arrived))[i := PageOf(r, i)]
  {
    hide PageOf;
    assert i in arrived + {i};
    assert arrived == {} ==> arrived + {i} == {i};
    assert arrived != {} ==> Stale(held, r, arrived + {i}) == Stale(held, r, arrived);
  }

  /** A delivered page patches what the ground held. */
  lemma DeliveryPatches(held: Assembly, r: Route, arrived: set<nat>)
    requires ValidRoute(r) && r.pending && WellHeld(held)
    requires forall i :: i in arrived ==> 0 <= i < r.pageIndex as int
    ensures Stored(GroundDuring(held, r, arrived), PageDue(r)) == GroundDuring(held, r, arrived + {r.pageIndex as nat})
  {
    hide PageDue, PageOf, Patched;
    PageDueIsPageOf(r);
    var i: nat := r.pageIndex as int;
    PatchOne(held, r, arrived, i);
    assert held.pages != map[] ==> |held.pages| > 0;
    assert i in arrived + {i};
    assert arrived == {} ==> arrived + {i} == {i};
    assert arrived != {} ==> i > 0;
  }

  lemma StepKeepsInv(s: System, e: Event)
    requires Inv(s) && ValidEvent(e)
    ensures Inv(Step(s, e).sys)
  {
    hide OnAir, PageDue, Stored, PageOf, GroundDuring;
    match e
    case NewRoute(m) =>
      NothingArrivedYet(s.ground, Begin(s.route, m));
      GroundIsWellHeld(s);
    case Cycle(a, written, delivered) =>
      if written {
        OnAirPage(a, s.route);
        SameGround(s.held, s.route, s.arrived);
        if s.route.pending {
          SameGround(s.held, s.route, s.arrived + {s.sent});
          DeliveryPatches(s.held, s.route, s.arrived);
        }
      }
  }

  lemma NothingArrivedYet(held: Assembly, r: Route)
    requires InBounds(r)
    ensures GroundDuring(held, r, {}) == held
  {
  }

  lemma GroundIsWellHeld(s: System)
    requires Inv(s)
    ensures WellHeld(s.ground)
  {
    if s.arrived != {} {
      var i :| i in s.arrived;
      assert i in s.ground.pages;
    }
  }

  function AllPages(n: nat): (all: set<nat>)
    ensures |all| == n && forall i: nat :: i in all <==> i < n
  {
    if n == 0 then {} else AllPages(n - 1) + {n - 1}
  }

  lemma Subset(a: set<nat>, b: set<nat>)
    requires a <= b && |a| >= |b|
    ensures a == b
  {
    if a != b {
      var x :| x in b && x !in a;
      SubsetSize(a, b - {x});
    }
  }

  lemma {:induction false} SubsetSize(a: set<nat>, b: set<nat>)
    requires a <= b
    ensures |a| <= |b|
  {
    if a != {} {
      var x :| x in a;
      SubsetSize(a - {x}, b - {x});
    }
  }

  // ---- What the ground returns ----

  /** Every page of the session has come, or the ground uses a page of an earlier one in its place. */
  ghost predicate Covered(held: Assembly, r: Route, arrived: set<nat>) {
    forall i: nat :: i < r.totalPages as int ==> i in arrived || i in Stale(held, r, arrived)
  }

  /** The pages that arrived, with those of earlier sessions in the gaps. */
  function Patchwork(held: Assembly, r: Route, arrived: set<nat>, n: nat): seq<Dl2.PageWaypoint>
    requires InBounds(r)
    requires forall i: nat :: i < n ==> i in arrived || i in Stale(held, r, arrived)
  {
    if n == 0 then []
    else
      Patchwork(held, r, arrived, n - 1)
      + (if n - 1 in arrived then PageOf(r, n - 1) else Stale(held, r, arrived)[n - 1])
  }

  lemma {:induction false} JoinedPatchwork(held: Assembly, r: Route, arrived: set<nat>, n: nat)
    requires InBounds(r)
    requires forall i: nat :: i < n ==> i in arrived || i in Stale(held, r, arrived)
    ensures Joined(Patched(held, r, arrived), n) == Some(Patchwork(held, r, arrived, n))
  {
    hide Stale, PageOf;
    if n > 0 {
      JoinedPatchwork(held, r, arrived, n - 1);
    }
  }

  lemma LastPage(r: Route, n: nat)
    requires ValidRoute(r) && 0 < n <= r.totalPages as int
    ensures var to := if 2 * n <= r.count as int then 2 * n else r.count as int;
            |Expected(r)| == r.count as int && Expected(r)[..2 * n - 2] + PageOf(r, n - 1) == Expected(r)[..to]
  {
  }

  /** Once all pages have come, the patchwork is the whole route in order. */
  lemma {:induction false} AllArrived(held: Assembly, r: Route, arrived: set<nat>, n: nat)
    requires ValidRoute(r) && n <= r.totalPages as int && forall i: nat :: i < n ==> i in arrived
    ensures Patchwork(held, r, arrived, n) == Expected(r)[..if 2 * n <= r.count as int then 2 * n else r.count]
  {
    if n > 0 {
      AllArrived(held, r, arrived, n - 1);
      hide Stale, Expected;
      LastPage(r, n);
    }
  }

  /** Pages below `n` are all there exactly when there are `n` of them. */
  lemma CountTells(pages: map<nat, seq<Dl2.PageWaypoint>>, n: nat)
    requires forall i :: i in pages ==> i < n
    ensures |pages| >= n <==> forall i: nat :: i < n ==> i in pages
  {
    assert |pages| == |pages.Keys|;
    if forall i: nat :: i < n ==> i in pages {
      assert pages.Keys == AllPages(n);
    } else if |pages| >= n {
      Subset(pages.Keys, AllPages(n));
    }
  }

  /** What the assembler returns from the pages it holds. */
  lemma PatchedReturns(held: Assembly, r: Route, all: set<nat>)
    requires InBounds(r) && WellHeld(held) && forall i :: i in all ==> i < r.totalPages as int
    ensures var pages, n: nat := Patched(held, r, all), r.totalPages as int;
            (if |pages| >= n then Joined(pages, n) else None)
            == if Covered(held, r, all) then Some(Patchwork(held, r, all, n)) else None
  {
    hide PageOf, Joined, Patchwork, AllPages;
    var pages, n: nat := Patched(held, r, all), r.totalPages as int;
    assert forall i: nat :: i in pages <==> i in all || i in Stale(held, r, all);
    CountTells(pages, n);
    if Covered(held, r, all) {
      JoinedPatchwork(held, r, all, n);
    }
  }

  lemma DeliveryReturns(held: Assembly, r: Route, arrived: set<nat>, f: Dl2.Frame)
    requires ValidRoute(r) && r.pending && WellHeld(held)
    requires forall i :: i in arrived ==> 0 <= i < r.pageIndex as int
    requires Dl2.HasPage(f.flags) && f.page == Some(PageDue(r))
    ensures var n: nat := r.totalPages as int; var all := arrived + {r.pageIndex as nat};
            Assemble(GroundDuring(held, r, arrived), f).route
            == if Covered(held, r, all) then Some(Patchwork(held, r, all, n)) else None
  {
    hide PageDue, PageOf, Joined, Stored, Patchwork, Patched, Covered, WellHeld;
    DeliveryPatches(held, r, arrived);
    PageDueIsPageOf(r);
    var all := arrived + {r.pageIndex as nat};
    assert r.pageIndex as nat in all;
    PatchedReturns(held, r, all);
  }

  /** The event delivers a page of the current session. */
  predicate Delivers(s: System, e: Event) {
    e.Cycle? && e.written && e.delivered && s.route.pending
  }

  /** The pages of the current session that have come with event `e`. */
  function ArrivedWith(s: System, e: Event): set<nat>
    requires Delivers(s, e)
  {
    s.arrived + {s.route.pageIndex as nat}
  }

  /** A step returns a route exactly when it delivers a page and, with the pages of earlier sessions that the
      ground still uses, none is missing; the route is the patchwork of both. */
  lemma StepReturns(s: System, e: Event)
    requires Inv(s) && ValidEvent(e)
    ensures Step(s, e).route ==
            if Delivers(s, e) && Covered(s.held, s.route, ArrivedWith(s, e))
            then Some(Patchwork(s.held, s.route, ArrivedWith(s, e), s.route.totalPages as nat))
            else None
  {
    hide OnAir, Stored, PageDue, Expected, Covered, Patchwork, GroundDuring;
    if e.Cycle? && e.written && e.delivered {
      OnAirPage(e.a, s.route);
      if s.route.pending {
        DeliveryReturns(s.held, s.route, s.arrived, OnAir(e.a, s.route));
      }
    }
  }

  // ---- Whole runs ----

  ghost function RunAll(s: System, events: seq<Event>): System
    requires ValidRoute(s.route) && forall i :: 0 <= i < |events| ==> ValidEvent(events[i])
    ensures ValidRoute(RunAll(s, events).route)
  {
    if events == [] then s else Step(RunAll(s, events[..|events| - 1]), events[|events| - 1]).sys
  }

  ghost predicate ValidEvents(events: seq<Event>) {
    forall i :: 0 <= i < |events| ==> ValidEvent(events[i])
  }

  ghost predicate FirstPagesDelivered(s: System, events: seq<Event>)
    requires ValidRoute(s.route) && ValidEvents(events)
  {
    forall i :: 0 <= i < |events| ==> FirstPageDelivered(RunAll(s, events[..i]), events[i])
  }

  lemma {:induction false} RunKeepsInv(s: System, events: seq<Event>)
    requires Inv(s) && ValidEvents(events)
    ensures Inv(RunAll(s, events))
  {
    hide Step;
    if events != [] {
      RunKeepsInv(s, events[..|events| - 1]);
      StepKeepsInv(RunAll(s, events[..|events| - 1]), events[|events| - 1]);
    }
  }

  const NO_ROUTE: seq<Waypoint> := seq(MAX_WAYPOINTS, _ => Waypoint(0, [0, 0, 0, 0], 0, 0, 0))

  ghost const BOOT: System := System(Route(false, 0, 0, 0, 0, NO_ROUTE), EMPTY, 0, {}, EMPTY)

  lemma BootInv()
    ensures Inv(BOOT)
  {
  }

  /** In every run from power-up, over any number of sessions, write failures and losses, the ground
      returns a route that is a patchwork of pages, and only one without gaps. */
  lemma ReadbackIsPatchwork(events: seq<Event>, e: Event)
    requires ValidEvents(events) && ValidEvent(e)
    ensures var s := RunAll(BOOT, events);
            && Inv(s)
            && Step(s, e).route ==
               if Delivers(s, e) && Covered(s.held, s.route, ArrivedWith(s, e))
               then Some(Patchwork(s.held, s.route, ArrivedWith(s, e), s.route.totalPages as nat))
               else None
  {
    hide Step, Covered, Patchwork, GroundDuring, WellHeld;
    BootInv();
    RunKeepsInv(BOOT, events);
    StepReturns(RunAll(BOOT, events), e);
  }

  /** The returned route uses, for some index, a page of an earlier session. */
  ghost predicate UsesEarlierPage(s: System, e: Event)
    requires ValidRoute(s.route) && ValidEvent(e)
  {
    && Delivers(s, e) && Step(s, e).route.Some?
    && exists i: nat :: i < s.route.totalPages as int && i !in ArrivedWith(s, e)
  }

  /** Exactly when sessions are mixed: in every run from power-up, a returned route uses a page of an earlier
      session if and only if the first page of the current session has not come, the ground took the session
      for one it held pages of, and those pages cover every index that has not come. */
  lemma MixesExactly(events: seq<Event>, e: Event)
    requires ValidEvents(events) && ValidEvent(e)
    ensures var s := RunAll(BOOT, events);
            UsesEarlierPage(s, e) <==>
            (Delivers(s, e) && 0 !in ArrivedWith(s, e) && LooksTheSame(s.held, s.route)
             && forall i: nat :: i < s.route.totalPages as int && i !in ArrivedWith(s, e) ==> i in s.held.pages)
  {
    hide Step, Patchwork, GroundDuring;
    ReadbackIsPatchwork(events, e);
    var s := RunAll(BOOT, events);
    if Delivers(s, e) {
      assert 0 < s.route.totalPages;
      assert forall i: nat :: i in Stale(s.held, s.route, ArrivedWith(s, e)) ==> 0 !in ArrivedWith(s, e);
    }
  }

  /** The first page has come if any page of the session has been written. */
  ghost predicate FirstCame(s: System) { s.sent > 0 ==> 0 in s.arrived }

  lemma StepKeepsFirst(s: System, e: Event)
    requires Inv(s) && ValidEvent(e) && FirstPageDelivered(s, e) && FirstCame(s)
    ensures FirstCame(Step(s, e).sys)
  {
    hide OnAir, Assemble, GroundDuring, WellHeld;
  }

  lemma {:induction false} FirstPageComesFirst(events: seq<Event>)
    requires ValidEvents(events) && FirstPagesDelivered(BOOT, events)
    ensures Inv(RunAll(BOOT, events)) && FirstCame(RunAll(BOOT, events))
  {
    hide Step, GroundDuring, WellHeld, FirstPageDelivered;
    BootInv();
    RunKeepsInv(BOOT, events);
    if events != [] {
      var n := |events| - 1;
      RunKeepsInv(BOOT, events[..n]);
      forall i | 0 <= i < n ensures FirstPageDelivered(RunAll(BOOT, events[..n][..i]), events[..n][i]) {
        assert events[..n][..i] == events[..i];
      }
      FirstPageComesFirst(events[..n]);
      assert FirstPageDelivered(RunAll(BOOT, events[..n]), events[n]);
      StepKeepsFirst(RunAll(BOOT, events[..n]), events[n]);
    }
  }

  /** With delivered first pages the ground returns the session's route once all its pages have arrived. */
  lemma ReturnsExpected(events: seq<Event>, e: Event)
    requires ValidEvents(events) && FirstPagesDelivered(BOOT, events)
    requires ValidEvent(e) && FirstPageDelivered(RunAll(BOOT, events), e)
    ensures var s := RunAll(BOOT, events); var t := Step(s, e);
            t.route == if e.Cycle? && e.written && e.delivered && s.route.pending
                          && t.sys.arrived == AllPages(s.route.totalPages as nat)
                       then Some(Expected(s.route)) else None
  {
    hide OnAir, Assemble, GroundDuring, Patchwork, Expected, AllPages, Covered, WellHeld, FirstPagesDelivered;
    FirstPageComesFirst(events);
    ReadbackIsPatchwork(events, e);
    var s := RunAll(BOOT, events);
    if Delivers(s, e) {
      FirstMeansOwn(s.held, s.route, ArrivedWith(s, e));
    }
  }

  /** Once the first page has come, only pages of the session count. */
  lemma FirstMeansOwn(held: Assembly, r: Route, all: set<nat>)
    requires ValidRoute(r) && 0 in all && forall i :: i in all ==> i < r.totalPages as int
    ensures Covered(held, r, all) <==> all == AllPages(r.totalPages as nat)
    ensures Covered(held, r, all) ==> Patchwork(held, r, all, r.totalPages as nat) == Expected(r)
  {
    hide Patchwork, Expected;
    var n: nat := r.totalPages as int;
    assert all <= AllPages(n);
    if Covered(held, r, all) {
      assert all == AllPages(n);
      AllArrived(held, r, all, n);
      WholeExpected(r);
    }
  }

  lemma WholeExpected(r: Route)
    requires ValidRoute(r)
    ensures Expected(r)[..r.count] == Expected(r) && 2 * r.totalPages as int >= r.count as int
  {
  }

  // ---- The route that comes back is the snapshot that went in ----

  /** The last snapshot that reached the vehicle. */
  function Current(events: seq<Event>): Option<Snapshot> {
    if events == [] then None
    else if events[|events| - 1].NewRoute? then Some(events[|events| - 1].m)
    else Current(events[..|events| - 1])
  }

  /** The vehicle's route is the last snapshot, of which at most 37 waypoints count. */
  ghost predicate Holds(r: Route, c: Option<Snapshot>) {
    && |r.waypoints| == 37
    && match c
       case None => r.count == 0
       case Some(m) =>
         && |m.waypoints| == 37
         && r.count == (if m.count as int <= 37 then m.count else 37)
         && r.routeType == m.routeType && r.totalPages as int == (r.count as int + 1) / 2
         && forall k :: 0 <= k < r.count as int ==> r.waypoints[k] == m.waypoints[k]
  }

  lemma StepHolds(s: System, e: Event, c: Option<Snapshot>)
    requires ValidRoute(s.route) && ValidEvent(e) && Holds(s.route, c)
    ensures Holds(Step(s, e).sys.route, if e.NewRoute? then Some(e.m) else c)
  {
    hide OnAir, Assemble;
  }

  lemma {:induction false} RouteIsCurrent(events: seq<Event>)
    requires ValidEvents(events)
    ensures Holds(RunAll(BOOT, events).route, Current(events))
  {
    hide Step, Holds;
    if events == [] {
      BootHolds();
    } else {
      RouteIsCurrent(events[..|events| - 1]);
      StepHolds(RunAll(BOOT, events[..|events| - 1]), events[|events| - 1], Current(events[..|events| - 1]));
    }
  }

  lemma BootHolds()
    ensures Holds(BOOT.route, None)
  {
  }

  /** In every run from power-up, over any number of sessions, write failures and losses: a route that the ground
      returns without a page of an earlier session is the last snapshot, whole and in order, with type, latitude,
      longitude and height of every waypoint. */
  lemma ReadbackReturnsTheSnapshot(events: seq<Event>, e: Event)
    requires ValidEvents(events) && ValidEvent(e)
    requires var s := RunAll(BOOT, events); Step(s, e).route.Some? && !UsesEarlierPage(s, e)
    ensures Current(events).Some?
    ensures var m, r := Current(events).value, Step(RunAll(BOOT, events), e).route.value;
            && |m.waypoints| == 37
            && |r| == (if m.count as int <= 37 then m.count as int else 37)
            && forall k :: 0 <= k < |r| ==>
                 && r[k].cmdType == m.waypoints[k].cmdType
                 && r[k].latE7 == m.waypoints[k].latE7
                 && r[k].lonE7 == m.waypoints[k].lonE7
                 && r[k].z == m.waypoints[k].z
  {
    hide Step, Expected, Patchwork, GroundDuring, WellHeld, Covered;
    ReadbackIsPatchwork(events, e);
    RouteIsCurrent(events);
    var s := RunAll(BOOT, events);
    assert 0 < s.route.totalPages as int;
    assert 0 in ArrivedWith(s, e);
    FirstMeansOwn(s.held, s.route, ArrivedWith(s, e));
    ExpectedShows(s.route);
  }

  lemma ExpectedShows(r: Route)
    requires InBounds(r)
    ensures |Expected(r)| == r.count as int
    ensures forall k :: 0 <= k < r.count as int ==> Expected(r)[k] == PageView(r.waypoints[k])
  {
  }

  /** In every run in which written first pages are delivered, the ground returns a route exactly when all
      pages of the current session have arrived, and it is the last snapshot, never a mix. */
  lemma ReadbackNeverMixes(events: seq<Event>, e: Event)
    requires ValidEvents(events) && FirstPagesDelivered(BOOT, events)
    requires ValidEvent(e) && FirstPageDelivered(RunAll(BOOT, events), e)
    ensures var s := RunAll(BOOT, events); var t := Step(s, e);
            && (t.route.Some? <==>
                e.Cycle? && e.written && e.delivered && s.route.pending
                && forall i: nat :: i < (s.route.count as nat + 1) / 2 ==> i in t.sys.arrived)
            && (t.route.Some? ==>
                  && Current(events).Some?
                  && var m, r := Current(events).value, t.route.value;
                     && |m.waypoints| == 37
                     && |r| == (if m.count as int <= 37 then m.count as int else 37)
                     && forall k :: 0 <= k < |r| ==>
                          && r[k].cmdType == m.waypoints[k].cmdType
                          && r[k].latE7 == m.waypoints[k].latE7
                          && r[k].lonE7 == m.waypoints[k].lonE7
                          && r[k].z == m.waypoints[k].z)
  {
    hide OnAir, Assemble, GroundDuring, Patchwork, Expected, FirstPagesDelivered, Step;
    ReturnsExpected(events, e);
    ReadbackIsPatchwork(events, e);
    var s := RunAll(BOOT, events);
    StepKeepsInv(s, e);
    AllArrivedMeans(s, e);
    if Step(s, e).route.Some? {
      ReadbackReturnsTheSnapshot(events, e);
    }
  }

  lemma AllArrivedMeans(s: System, e: Event)
    requires Inv(s) && ValidEvent(e) && Inv(Step(s, e).sys)
    ensures var t, n: nat := Step(s, e), (s.route.count as nat + 1) / 2;
            && n == s.route.totalPages as nat
            && (Delivers(s, e) ==>
                  && t.sys.arrived == ArrivedWith(s, e)
                  && (t.sys.arrived == AllPages(n) <==> forall i: nat :: i < n ==> i in t.sys.arrived))
  {
    hide OnAir, Assemble, GroundDuring, WellHeld;
    if Delivers(s, e) {
      assert forall i :: i in ArrivedWith(s, e) ==> 0 <= i < s.route.totalPages as int;
    }
  }

  function Writes(events: seq<Event>): nat {
    if events == [] then 0
    else Writes(events[..|events| - 1]) + if events[|events| - 1].Cycle? && events[|events| - 1].written then 1 else 0
  }

  /** After a snapshot of n waypoints, the flag is cleared by exactly ceil(n / 2) written frames,
      whatever write failures come between them. */
  lemma {:induction false} SessionLength(s: System, m: Snapshot, cycles: seq<Event>)
    requires ValidRoute(s.route) && ValidSnapshot(m)
    requires forall i :: 0 <= i < |cycles| ==> cycles[i].Cycle?
    ensures var r := RunAll(Step(s, NewRoute(m)).sys, cycles).route; var n := (Clamped(m.count) as int + 1) / 2;
            && (r.pending <==> Writes(cycles) < n)
            && (r.pending ==> r.pageIndex as int == Writes(cycles)) && r.totalPages as int == n
  {
    if cycles != [] {
      SessionLength(s, m, cycles[..|cycles| - 1]);
    }
  }

  /** One step at a time. */
  lemma RunSnoc(s: System, events: seq<Event>, e: Event)
    requires ValidRoute(s.route) && ValidEvents(events) && ValidEvent(e)
    ensures ValidEvents(events + [e]) && RunAll(s, events + [e]) == Step(RunAll(s, events), e).sys
  {
    assert (events + [e])[..|events|] == events;
  }

  /** A route of two pages is read back. */
  function FirstSession(a: Source, m: Snapshot): seq<Event> {
    [NewRoute(m), Cycle(a, true, true), Cycle(a, true, true)]
  }

  /** A second one of the same type and size follows, and its first page is lost. */
  function TwoSessions(a: Source, m: Snapshot, m': Snapshot): seq<Event> {
    FirstSession(a, m) + [NewRoute(m'), Cycle(a, true, false)]
  }

  predicate TwoPaged(m: Snapshot) { ValidSnapshot(m) && (m.count == 3 || m.count == 4) }

  /** A cycle of a pending session that writes its frame. */
  lemma WrittenCycle(s: System, a: Source, delivered: bool)
    requires Inv(s) && s.route.pending
    ensures var t := Step(s, Cycle(a, true, delivered)).sys;
            && Inv(t) && t.route == AfterWrite(s.route) && t.sent == s.sent + 1 && t.held == s.held
            && t.arrived == (if delivered then s.arrived + {s.sent} else s.arrived)
  {
    hide OnAir, Assemble, GroundDuring;
    StepKeepsInv(s, Cycle(a, true, delivered));
  }

  predicate BeginsWith(r: Route, m: Snapshot)
    requires InBounds(r) && TwoPaged(m)
  {
    r.routeType == m.routeType && r.totalPages == 2 && r.count == m.count
        && r.waypoints[..m.count] == m.waypoints[..m.count]
  }

  lemma NewSession(s: System, m: Snapshot)
    requires Inv(s) && TwoPaged(m)
    ensures var t := Step(s, NewRoute(m)).sys;
            && Inv(t) && BeginsWith(t.route, m) && t.route.pending && t.route.pageIndex == 0 && t.sent == 0
            && t.arrived == {} && t.held == s.ground
  {
    hide GroundDuring;
    StepKeepsInv(s, NewRoute(m));
  }

  lemma AfterFirstSession(a: Source, m: Snapshot)
    requires TwoPaged(m)
    ensures ValidEvents(FirstSession(a, m))
    ensures var s := RunAll(BOOT, FirstSession(a, m));
            && Inv(s) && InBounds(s.route) && BeginsWith(s.route, m) && s.arrived == {0, 1}
  {
    hide Step, Inv;
    BootInv();
    var c := Cycle(a, true, true);
    assert RunAll(BOOT, []) == BOOT;
    RunSnoc(BOOT, [], NewRoute(m));
    NewSession(BOOT, m);
    var s1 := Step(BOOT, NewRoute(m)).sys;
    WrittenCycle(s1, a, true);
    RunSnoc(BOOT, [] + [NewRoute(m)], c);
    var s2 := Step(s1, c).sys;
    WrittenCycle(s2, a, true);
    RunSnoc(BOOT, [] + [NewRoute(m)] + [c], c);
    assert [] + [NewRoute(m)] + [c] + [c] == FirstSession(a, m);
  }

  lemma FirstPage(r: Route, m: Snapshot)
    requires InBounds(r) && TwoPaged(m) && BeginsWith(r, m)
    ensures PageOf(r, 0) == [PageView(m.waypoints[0]), PageView(m.waypoints[1])]
    ensures PageOf(r, 1) == Expected(r)[2..] && Expected(r)[..2] == PageOf(r, 0)
  {
    assert r.waypoints[0] == r.waypoints[..m.count][0] && r.waypoints[1] == r.waypoints[..m.count][1];
  }

  lemma AfterTwoSessions(a: Source, m: Snapshot, m': Snapshot)
    requires TwoPaged(m) && TwoPaged(m') && m.routeType == m'.routeType
    ensures ValidEvents(TwoSessions(a, m, m'))
    ensures var s := RunAll(BOOT, TwoSessions(a, m, m'));
            && Inv(s) && InBounds(s.route) && BeginsWith(s.route, m') && s.route.pending && s.route.pageIndex == 1
            && s.arrived == {} && LooksTheSame(s.held, s.route) && s.held.pages.Keys == {0, 1}
            && s.held.pages[0] == [PageView(m.waypoints[0]), PageView(m.waypoints[1])]
  {
    hide Step;
    AfterFirstSession(a, m);
    var first := FirstSession(a, m);
    var s3 := RunAll(BOOT, first);
    FirstPage(s3.route, m);
    assert s3.ground.pages[0] == PageOf(s3.route, 0);
    hide GroundDuring;
    RunSnoc(BOOT, first, NewRoute(m'));
    NewSession(s3, m');
    var s4 := Step(s3, NewRoute(m')).sys;
    RunSnoc(BOOT, first + [NewRoute(m')], Cycle(a, true, false));
    WrittenCycle(s4, a, false);
    assert first + [NewRoute(m')] + [Cycle(a, true, false)] == TwoSessions(a, m, m');
  }

  /** The failing run: when the second page of the second session comes, the ground returns the first two
      waypoints of the first route followed by the rest of the second. */
  lemma LostFirstPageMixes(a: Source, m: Snapshot, m': Snapshot)
    requires TwoPaged(m) && TwoPaged(m') && m.routeType == m'.routeType
    ensures ValidEvents(TwoSessions(a, m, m'))
    ensures var s := RunAll(BOOT, TwoSessions(a, m, m')); var e := Cycle(a, true, true);
            && UsesEarlierPage(s, e)
            && Step(s, e).route.Some?
            && var r := Step(s, e).route.value;
               && |r| == m'.count as int
               && forall k :: 0 <= k < |r| ==> Shows(r[k], if k < 2 then m.waypoints[k] else m'.waypoints[k])
  {
    hide Step, Inv, Expected, PageOf, Patchwork;
    AfterTwoSessions(a, m, m');
    var s, e := RunAll(BOOT, TwoSessions(a, m, m')), Cycle(a, true, true);
    ReadbackIsPatchwork(TwoSessions(a, m, m'), e);
    FirstPage(s.route, m');
    assert ArrivedWith(s, e) == {1};
    PatchworkOfTwo(s.held, s.route, ArrivedWith(s, e));
    TailShows(s.route, m');
  }

  /** The waypoint on the ground is that of the vehicle, without its parameters. */
  predicate Shows(p: Dl2.PageWaypoint, w: Waypoint) {
    p.cmdType == w.cmdType && p.latE7 == w.latE7 && p.lonE7 == w.lonE7 && p.z == w.z
  }

  lemma TailShows(r: Route, m: Snapshot)
    requires InBounds(r) && TwoPaged(m) && BeginsWith(r, m)
    ensures |Expected(r)| == m.count as int
    ensures forall k :: 2 <= k < m.count as int ==> Expected(r)[2..][k - 2] == PageView(m.waypoints[k])
  {
    forall k | 2 <= k < m.count as int ensures Expected(r)[2..][k - 2] == PageView(m.waypoints[k]) {
      assert r.waypoints[..m.count][k] == m.waypoints[..m.count][k];
    }
  }

  lemma PatchworkOfTwo(held: Assembly, r: Route, arrived: set<nat>)
    requires InBounds(r) && arrived == {1} && 0 in Stale(held, r, arrived)
    ensures Patchwork(held, r, arrived, 2) == held.pages[0] + PageOf(r, 1)
  {
    hide PageOf;
    assert Patchwork(held, r, arrived, 0) == [];
    assert Patchwork(held, r, arrived, 1) == [] + held.pages[0] == held.pages[0];
  }
}
