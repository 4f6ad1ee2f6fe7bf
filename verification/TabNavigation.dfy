/** Moving around in tabs: following links, submitting addresses and going back
    (apps/fetchit-desktop/src/controller.ts over tabs.ts). */
module TabNavigation {
  import opened Basics
  import opened TabStore

  /** `backNavigate`: an empty address popped from the stack is dropped. */
  function Backed(s: Tabs): Tabs {
    if ActiveIndex(s) < 0 then s
    else
      var id := s.active.value;
      var past, popped := LastPast(s, id), Popped(s, id);
      if past.None? || past.value == "" then popped else Fetched(popped, id, past.value, false, "")
  }

  function InNewTab(s: Tabs, address: string, query: string): Tabs {
    Fetched(Created(s), IdOf(s.counter + 1), address, true, query)
  }

  function Navigated(s: Tabs, address: string, newTab: bool): Tabs {
    if newTab || ActiveIndex(s) < 0 then InNewTab(s, address, "")
    else Fetched(s, s.active.value, address, true, "")
  }

  function FindByAddress(list: seq<Tab>, address: string): (i: int)
    ensures -1 <= i < |list| && (i >= 0 ==> list[i].address == Some(address))
    ensures i < 0 <==> forall t <- list :: t.address != Some(address)
  {
    if list == [] then -1
    else
      var i := FindByAddress(list[..|list| - 1], address);
      if i >= 0 then i else if list[|list| - 1].address == Some(address) then |list| - 1 else -1
  }

  function Submitted(s: Tabs, address: string, query: string): Tabs {
    var i := FindByAddress(s.list, address);
    if i >= 0 then
      var tab, shown := s.list[i], Activated(s, s.list[i].id);
      if tab.status.Failed? || query != tab.query then Fetched(shown, tab.id, address, true, query) else shown
    else if ActiveIndex(s) >= 0 && s.list[ActiveIndex(s)].status.Blank? then Fetched(s, s.active.value, address, true, query)
    else InNewTab(s, address, query)
  }

  /** `openProfile`: a handle or profile address, opened like a submitted one. */
  function ProfileOpened(s: Tabs, address: string): Tabs {
    var i := FindByAddress(s.list, address);
    if i >= 0 then
      var tab, shown := s.list[i], Activated(s, s.list[i].id);
      if tab.status.Failed? then Fetched(shown, tab.id, address, true, "") else shown
    else if ActiveIndex(s) >= 0 && s.list[ActiveIndex(s)].status.Blank? then Fetched(s, s.active.value, address, true, "")
    else InNewTab(s, address, "")
  }

  /** `refresh`: fetch the same address and query again, recording nothing. */
  function Refreshed(s: Tabs): Tabs {
    var i := ActiveIndex(s);
    if i < 0 || s.list[i].address.None? || s.list[i].address.value == "" then s
    else Fetched(s, s.active.value, s.list[i].address.value, false, s.list[i].query)
  }

  datatype Move =
    | Navigate(address: string, newTab: bool)
    | Submit(address: string, query: string)
    | OpenProfile(address: string)
    | Refresh
    | Back
    | Strip(op: Op)

  /** What the controller asks for: addresses that were parsed, so not empty, and
      beside fetching and going back no store operation that moves a tab. */
  predicate Proper(m: Move) {
    match m
    case Navigate(address, _) => address != ""
    case Submit(address, _) => address != ""
    case OpenProfile(address) => address != ""
    case Refresh => true
    case Back => true
    case Strip(op) => !op.Fetch? && !op.Pop?
  }

  function Made(s: Tabs, m: Move): Tabs {
    match m
    case Navigate(address, newTab) => Navigated(s, address, newTab)
    case Submit(address, query) => Submitted(s, address, query)
    case OpenProfile(address) => ProfileOpened(s, address)
    case Refresh => Refreshed(s)
    case Back => Backed(s)
    case Strip(op) => Apply(s, op)
  }

  function Moves(ms: seq<Move>): Tabs {
    if ms == [] then Tabs([], None, 0) else Made(Moves(ms[..|ms| - 1]), ms[|ms| - 1])
  }

  // -------------------------------------------- trails never repeat an address

  /** The back stack followed by the current address. */
  function Trail(t: Tab): seq<string> { if t.address.Some? then t.history + [t.address.value] else t.history }

  ghost predicate Tidy(t: Tab) {
    && (t.address.None? ==> t.history == [])
    && (forall a <- Trail(t) :: a != "")
    && (forall i :: 0 < i < |Trail(t)| ==> Trail(t)[i - 1] != Trail(t)[i])
  }

  ghost predicate AllTidy(s: Tabs) { forall t <- s.list :: Tidy(t) }

  lemma MoveStaysTidy(t: Tab, address: string, query: string)
    requires Tidy(t) && address != ""
    ensures Tidy(Moved(t, address, true, query))
  {
    var r := Moved(t, address, true, query);
    if t.address.Some? {
      assert Trail(t)[|t.history|] in Trail(t);
      assert Trail(r) == if t.address.value == address then Trail(t) else Trail(t) + [address];
    } else {
      assert Trail(r) == [address];
    }
  }

  lemma BackStaysTidy(t: Tab)
    requires Tidy(t) && t.history != []
    ensures var n := |t.history| - 1;
            t.history[n] != "" && Tidy(Moved(t.(history := t.history[..n]), t.history[n], false, ""))
  {
    var n := |t.history| - 1;
    var r := Moved(t.(history := t.history[..n]), t.history[n], false, "");
    assert Trail(r) == t.history;
    assert forall i :: 0 <= i < |t.history| ==> Trail(t)[i] == t.history[i] && Trail(t)[i] in Trail(t);
  }

  lemma FetchStaysTidy(s: Tabs, id: string, address: string, query: string)
    requires AllTidy(s) && address != ""
    ensures AllTidy(Fetched(s, id, address, true, query))
  {
    hide Tidy, Moved, IndexOf;
    var i, r := IndexOf(s.list, id), Fetched(s, id, address, true, query);
    if i >= 0 {
      assert s.list[i] in s.list;
      MoveStaysTidy(s.list[i], address, query);
      forall t | t in r.list ensures Tidy(t) {
        assert t in s.list || t == r.list[i];
      }
    }
  }

  lemma BackedStaysTidy(s: Tabs)
    requires AllTidy(s)
    ensures AllTidy(Backed(s))
  {
    hide Tidy, IndexOf;
    var i, r := ActiveIndex(s), Backed(s);
    if i >= 0 && s.list[i].history != [] {
      var t := s.list[i];
      var n := |t.history| - 1;
      assert t in s.list;
      BackStaysTidy(t);
      PopThenFetch(s);
      forall x | x in r.list ensures Tidy(x) {
        assert x in s.list || x == r.list[i];
      }
    }
  }

  /** Going back replaces the active tab by one moved to its last past address. */
  lemma PopThenFetch(s: Tabs)
    requires ActiveIndex(s) >= 0
    requires var t := s.list[ActiveIndex(s)]; t.history != [] && t.history[|t.history| - 1] != ""
    ensures var i := ActiveIndex(s);
            var t := s.list[i];
            var n := |t.history| - 1;
            Backed(s) == s.(list := s.list[i := Moved(t.(history := t.history[..n]), t.history[n], false, "")])
  {
    hide Moved;
    var i, id := ActiveIndex(s), s.active.value;
    var t := s.list[i];
    var popped := Popped(s, id);
    SameIdsSameIndex(s.list, popped.list, id);
  }

  lemma {:induction false} SameIdsSameIndex(a: seq<Tab>, b: seq<Tab>, id: string)
    requires |a| == |b| && forall i :: 0 <= i < |a| ==> a[i].id == b[i].id
    ensures IndexOf(a, id) == IndexOf(b, id)
  {
    if a != [] {
      SameIdsSameIndex(a[..|a| - 1], b[..|b| - 1], id);
    }
  }

  lemma NewTabTidy(s: Tabs)
    requires AllTidy(s)
    ensures AllTidy(Created(s))
  {
    hide Tidy;
    var r := Created(s);
    BlankTidy(r.list[|s.list|]);
  }

  lemma BlankTidy(t: Tab)
    requires t.address.None? && t.history == []
    ensures Tidy(t)
  {
  }

  lemma EndStaysTidy(t: Tab, e: Ending)
    requires Tidy(t)
    ensures Tidy(Ended(t, e))
  {
    assert Trail(Ended(t, e)) == Trail(t);
  }

  lemma RefreshStaysTidy(s: Tabs)
    requires AllTidy(s)
    ensures AllTidy(Refreshed(s))
  {
    hide IndexOf, Tidy;
    var i, r := ActiveIndex(s), Refreshed(s);
    if i >= 0 && s.list[i].address.Some? && s.list[i].address.value != "" {
      assert s.list[i] in s.list;
      SameTrailTidy(s.list[i], r.list[i]);
      forall t | t in r.list ensures Tidy(t) {
        assert t in s.list || t == r.list[i];
      }
    }
  }

  lemma SameTrailTidy(t: Tab, r: Tab)
    requires Tidy(t) && r.address == t.address && r.history == t.history
    ensures Tidy(r)
  {
    assert Trail(r) == Trail(t);
  }

  lemma StripStaysTidy(s: Tabs, op: Op)
    requires AllTidy(s) && !op.Fetch? && !op.Pop?
    ensures AllTidy(Apply(s, op))
  {
    hide Tidy, IndexOf, Wrapped, Ended;
    match op
    case Create => NewTabTidy(s);
    case Finish(id, ending) =>
      var i := IndexOf(s.list, id);
      if i >= 0 {
        assert s.list[i] in s.list;
        EndStaysTidy(s.list[i], ending);
        forall t | t in Apply(s, op).list ensures Tidy(t) {
          assert t in s.list || t == Ended(s.list[i], ending);
        }
      }
    case Close(id) => assert forall t <- Apply(s, op).list :: t in s.list;
    case Activate(id) =>
    case Shift(delta) =>
    case At(index) =>
  }

  lemma MoveKeepsTidy(s: Tabs, m: Move)
    requires AllTidy(s) && Proper(m)
    ensures AllTidy(Made(s, m))
  {
    hide AllTidy, IndexOf, FindByAddress, Fetched, Created, Activated;
    match m
    case Back => BackedStaysTidy(s);
    case Refresh => RefreshStaysTidy(s);
    case Strip(op) => StripStaysTidy(s, op);
    case Navigate(address, _) =>
      NewTabTidy(s);
      FetchStaysTidy(Created(s), IdOf(s.counter + 1), address, "");
      if s.active.Some? {
        FetchStaysTidy(s, s.active.value, address, "");
      }
    case Submit(address, query) => OpeningsStayTidy(s, address, query);
    case OpenProfile(address) => OpeningsStayTidy(s, address, "");
  }

  /** The ways a submitted address may be opened. */
  lemma OpeningsStayTidy(s: Tabs, address: string, query: string)
    requires AllTidy(s) && address != ""
    ensures AllTidy(InNewTab(s, address, query))
    ensures s.active.Some? ==> AllTidy(Fetched(s, s.active.value, address, true, query))
    ensures var i := FindByAddress(s.list, address);
            i >= 0 ==>
              && AllTidy(Activated(s, s.list[i].id))
              && AllTidy(Fetched(Activated(s, s.list[i].id), s.list[i].id, address, true, query))
  {
    hide AllTidy, IndexOf, FindByAddress, Fetched, Created, Activated;
    NewTabTidy(s);
    FetchStaysTidy(Created(s), IdOf(s.counter + 1), address, query);
    if s.active.Some? {
      FetchStaysTidy(s, s.active.value, address, query);
    }
    var i := FindByAddress(s.list, address);
    if i >= 0 {
      ActivateStaysTidy(s, s.list[i].id);
      FetchStaysTidy(Activated(s, s.list[i].id), s.list[i].id, address, query);
    }
  }

  lemma ActivateStaysTidy(s: Tabs, id: string)
    requires AllTidy(s)
    ensures AllTidy(Activated(s, id))
  {
  }

  /** Over every run of the controller's moves, no tab's back stack followed by
      its address names the same address twice in a row. */
  lemma {:induction false} TrailsNeverRepeat(ms: seq<Move>)
    requires forall m <- ms :: Proper(m)
    ensures AllTidy(Moves(ms))
  {
    hide Made, Proper;
    if ms != [] {
      TrailsNeverRepeat(ms[..|ms| - 1]);
      MoveKeepsTidy(Moves(ms[..|ms| - 1]), ms[|ms| - 1]);
    }
  }

  // ----------------------------------------------------------- forward and back

  function Forwards(s: Tabs, addresses: seq<string>): Tabs
    decreases |addresses|
  {
    if addresses == [] then s else Forwards(Navigated(s, addresses[0], false), addresses[1..])
  }

  function Backs(s: Tabs, n: nat): Tabs { if n == 0 then s else Backed(Backs(s, n - 1)) }

  /** Each address is a move away from the one before. */
  predicate Path(start: string, addresses: seq<string>)
    decreases |addresses|
  {
    addresses == [] || (start != "" && addresses[0] != start && Path(addresses[0], addresses[1..]))
  }

  /** The active tab is at the same address with the same back stack, every other
      tab is untouched. */
  ghost predicate SamePlace(s: Tabs, r: Tabs, i: nat)
    requires i < |s.list|
  {
    && r.active == s.active && r.counter == s.counter && |r.list| == |s.list|
    && (forall j :: 0 <= j < |s.list| && j != i ==> r.list[j] == s.list[j])
    && r.list[i].id == s.list[i].id && r.list[i].address == s.list[i].address
    && r.list[i].history == s.list[i].history
  }

  lemma NavigatePushes(s: Tabs, address: string)
    requires ActiveIndex(s) >= 0
    requires s.list[ActiveIndex(s)].address.Some?
    requires var here := s.list[ActiveIndex(s)].address.value; here != "" && here != address
    ensures var r, i := Navigated(s, address, false), ActiveIndex(s);
            && ActiveIndex(r) == i && r.active == s.active && r.counter == s.counter && |r.list| == |s.list|
            && (forall j :: 0 <= j < |s.list| && j != i ==> r.list[j] == s.list[j])
            && r.list[i].id == s.list[i].id && r.list[i].address == Some(address)
            && r.list[i].history == s.list[i].history + [s.list[i].address.value]
  {
    hide IndexOf;
    SameIdsSameIndex(s.list, Navigated(s, address, false).list, s.active.value);
  }

  lemma BackPops(s: Tabs, m: Tabs, r: Tabs, address: string)
    requires ActiveIndex(s) >= 0 && s.list[ActiveIndex(s)].address.Some?
    requires var here := s.list[ActiveIndex(s)].address.value; here != "" && here != address
    requires m == Navigated(s, address, false) && |m.list| == |s.list| && SamePlace(m, r, ActiveIndex(s))
    ensures SamePlace(s, Backed(r), ActiveIndex(s))
  {
    hide IndexOf, Moved, Navigated, Backed;
    var i := ActiveIndex(s);
    NavigatePushes(s, address);
    SameIdsSameIndex(s.list, r.list, s.active.value);
    var h := r.list[i].history;
    assert h == s.list[i].history + [s.list[i].address.value];
    assert h[..|h| - 1] == s.list[i].history;
    PopThenFetch(r);
    MovedBack(r.list[i], s.list[i].history, s.list[i].address.value);
  }

  lemma MovedBack(t: Tab, h: seq<string>, a: string)
    ensures var r := Moved(t.(history := h), a, false, "");
            r.id == t.id && r.address == Some(a) && r.history == h
  {
  }

  /** Going somewhere in n moves and back n times restores where every tab was
      and what its back stack held. */
  lemma {:induction false} ForwardThenBack(s: Tabs, addresses: seq<string>)
    requires ActiveIndex(s) >= 0 && s.list[ActiveIndex(s)].address.Some?
    requires Path(s.list[ActiveIndex(s)].address.value, addresses)
    ensures SamePlace(s, Backs(Forwards(s, addresses), |addresses|), ActiveIndex(s))
    decreases |addresses|
  {
    hide Navigated, Backed, SamePlace, ActiveIndex;
    if addresses == [] {
      StayingPut(s);
    } else {
      var m := Navigated(s, addresses[0], false);
      NavigatePushes(s, addresses[0]);
      ForwardThenBack(m, addresses[1..]);
      BackPops(s, m, Backs(Forwards(m, addresses[1..]), |addresses| - 1), addresses[0]);
    }
  }

  lemma StayingPut(s: Tabs)
    requires ActiveIndex(s) >= 0
    ensures SamePlace(s, s, ActiveIndex(s))
  {
  }

  // ------------------------------------------------------------- where moves land

  /** The active tab is at `address`. */
  predicate ActiveAt(s: Tabs, address: string) {
    ActiveIndex(s) >= 0 && s.list[ActiveIndex(s)].address == Some(address)
  }

  lemma FetchLands(s: Tabs, address: string, record: bool, query: string)
    requires ActiveIndex(s) >= 0
    ensures var r, i := Fetched(s, s.active.value, address, record, query), ActiveIndex(s);
            && ActiveAt(r, address) && ActiveIndex(r) == i && r.list[i].query == query && r.list[i].status.Loading? && |r.list| == |s.list|
            && forall j :: 0 <= j < |s.list| && j != i ==> r.list[j] == s.list[j]
  {
    hide IndexOf;
    var r := Fetched(s, s.active.value, address, record, query);
    SameIdsSameIndex(s.list, r.list, s.active.value);
  }

  lemma NewTabIndex(s: Tabs)
    requires Inv(s)
    ensures ActiveIndex(Created(s)) == |s.list|
  {
    hide IndexOf, IdOf;
    CreateKeepsInv(s);
    IndexOfOwn(Created(s), |s.list|);
  }

  /** A new tab is last, active and at the address; the others stay. */
  lemma NewTabLands(s: Tabs, address: string, query: string)
    requires Inv(s)
    ensures var r := InNewTab(s, address, query);
            && ActiveAt(r, address) && |r.list| == |s.list| + 1 && ActiveIndex(r) == |s.list| && r.list[|s.list|].query == query && r.list[|s.list|].status.Loading?
            && forall j :: 0 <= j < |s.list| ==> r.list[j] == s.list[j]
  {
    hide IndexOf, IdOf, Fetched, Inv, ActiveAt;
    NewTabIndex(s);
    FetchLands(Created(s), address, true, query);
  }

  lemma ActivateLands(s: Tabs, i: nat)
    requires Inv(s) && i < |s.list|
    ensures Activated(s, s.list[i].id) == s.(active := Some(s.list[i].id)) && ActiveIndex(Activated(s, s.list[i].id)) == i
  {
    hide IndexOf, Inv;
    IndexOfOwn(s, i);
  }

  /** Following a link goes to its address, in the active tab or in a new one. */
  lemma NavigateLands(s: Tabs, address: string, newTab: bool)
    requires Inv(s)
    ensures var r := Navigated(s, address, newTab);
            ActiveAt(r, address) && |r.list| == |s.list| + if newTab || s.list == [] then 1 else 0
  {
    hide IndexOf, Fetched, InNewTab, ActiveAt;
    NewTabLands(s, address, "");
    if ActiveIndex(s) >= 0 {
      FetchLands(s, address, true, "");
    }
  }

  /** A submitted address ends up in the active tab, with its query. A tab is opened
      for it exactly when no tab has the address and the active one is not blank. */
  lemma SubmitLands(s: Tabs, address: string, query: string)
    requires Inv(s)
    ensures var r := Submitted(s, address, query);
            && ActiveAt(r, address) && r.list[ActiveIndex(r)].query == query && !r.list[ActiveIndex(r)].status.Failed?
            && |r.list| == |s.list| + if (forall t <- s.list :: t.address != Some(address))
                                         && (s.list == [] || !s.list[ActiveIndex(s)].status.Blank?) then 1 else 0
  {
    hide IndexOf, Fetched, InNewTab, Activated;
    NewTabLands(s, address, query);
    if ActiveIndex(s) >= 0 {
      FetchLands(s, address, true, query);
    }
    var i := FindByAddress(s.list, address);
    if i >= 0 {
      ActivateLands(s, i);
      FetchLands(Activated(s, s.list[i].id), address, true, query);
    }
  }

  /** So does a profile; a tab that already shows it is only brought to front. */
  lemma ProfileLands(s: Tabs, address: string)
    requires Inv(s)
    ensures var r := ProfileOpened(s, address);
            && ActiveAt(r, address) && !r.list[ActiveIndex(r)].status.Failed?
            && |r.list| == |s.list| + if (forall t <- s.list :: t.address != Some(address))
                                         && (s.list == [] || !s.list[ActiveIndex(s)].status.Blank?) then 1 else 0
  {
    hide IndexOf, Fetched, InNewTab, Activated;
    NewTabLands(s, address, "");
    if ActiveIndex(s) >= 0 {
      FetchLands(s, address, true, "");
    }
    var i := FindByAddress(s.list, address);
    if i >= 0 {
      ActivateLands(s, i);
      FetchLands(Activated(s, s.list[i].id), address, true, "");
    }
  }

  /** A refresh loads the same address and query again and keeps the back stack. */
  lemma RefreshStays(s: Tabs)
    requires ActiveIndex(s) >= 0 && s.list[ActiveIndex(s)].address.Some? && s.list[ActiveIndex(s)].address.value != ""
    ensures var r, i := Refreshed(s), ActiveIndex(s);
            && ActiveIndex(r) == i && r.list[i].address == s.list[i].address && r.list[i].query == s.list[i].query
            && r.list[i].history == s.list[i].history && r.list[i].status.Loading?
  {
    hide IndexOf;
    FetchLands(s, s.list[ActiveIndex(s)].address.value, false, s.list[ActiveIndex(s)].query);
  }
}
