/** The tab strip: tabs with a back stack each, and which one is active
    (apps/fetchit-desktop/src/tabs.ts). */
module TabStore {
  import opened Basics
  import opened Decimal

  datatype Status = Blank | Loading | Rendered | Failed

  /** What a fetch yields, as far as the strip looks at it. */
  datatype Rendition = Rendition(envelope: bool, title: string)

  datatype Tab = Tab(id: string, address: Option<string>, query: string, shortLabel: string, display: Option<string>,
                     status: Status, error: Option<string>, rendition: Option<Rendition>, history: seq<string>)

  datatype Tabs = Tabs(list: seq<Tab>, active: Option<string>, counter: nat)

  /** `findIndex`: the first tab with this id, or -1. */
  function IndexOf(list: seq<Tab>, id: string): (i: int)
    ensures -1 <= i < |list| && (i >= 0 ==> list[i].id == id)
    ensures i < 0 <==> forall t <- list :: t.id != id
  {
    if list == [] then -1
    else
      var i := IndexOf(list[..|list| - 1], id);
      if i >= 0 then i else if list[|list| - 1].id == id then |list| - 1 else -1
  }

  function IdOf(n: nat): string { "t" + Digits(n) }

  function NewTab(id: string): Tab { Tab(id, None, "", "new tab", None, Blank, None, None, []) }

  function Created(s: Tabs): Tabs {
    var id := IdOf(s.counter + 1);
    Tabs(s.list + [NewTab(id)], Some(id), s.counter + 1)
  }

  const ELLIPSIS: char := '\U{2026}'

  /** The first six and the last four characters. */
  function ShortLabel(a: string): string {
    (if |a| <= 6 then a else a[..6]) + [ELLIPSIS] + (if |a| <= 4 then a else a[|a| - 4..])
  }

  function Cut(t: string): string { if |t| > 22 then t[..21] + [ELLIPSIS] else t }

  /** The move of one tab: an empty address counts as none. */
  function Moved(t: Tab, address: string, record: bool, query: string): Tab {
    var past := if record && t.address.Some? && t.address.value != "" && t.address.value != address
                then t.history + [t.address.value] else t.history;
    t.(address := Some(address), query := query, shortLabel := ShortLabel(address), display := None, status := Loading,
       error := None, rendition := None, history := past)
  }

  function Fetched(s: Tabs, id: string, address: string, record: bool, query: string): Tabs {
    var i := IndexOf(s.list, id);
    if i < 0 then s else s.(list := s.list[i := Moved(s.list[i], address, record, query)])
  }

  /** How a fetch ends: a rendition, a profile page or an error. */
  datatype Ending = Page(rendition: Rendition) | Profile(display: string) | Problem(error: string)

  function Ended(t: Tab, e: Ending): Tab {
    match e
    case Page(r) =>
      t.(status := Rendered, rendition := Some(r), error := None,
         shortLabel := if r.envelope && r.title != "" then Cut(r.title) else t.shortLabel)
    case Profile(d) => t.(status := Rendered, rendition := None, display := Some(d), shortLabel := Cut(d))
    case Problem(msg) => t.(status := Failed, error := Some(msg))
  }

  function Finished(s: Tabs, id: string, e: Ending): Tabs {
    var i := IndexOf(s.list, id);
    if i < 0 then s else s.(list := s.list[i := Ended(s.list[i], e)])
  }

  function LastPast(s: Tabs, id: string): Option<string> {
    var i := IndexOf(s.list, id);
    if i < 0 || s.list[i].history == [] then None else Some(s.list[i].history[|s.list[i].history| - 1])
  }

  function Popped(s: Tabs, id: string): Tabs {
    var i := IndexOf(s.list, id);
    if i < 0 || s.list[i].history == [] then s
    else s.(list := s.list[i := s.list[i].(history := s.list[i].history[..|s.list[i].history| - 1])])
  }

  /** Closing the active tab activates its right neighbour, else its left one. */
  function Closed(s: Tabs, id: string): Tabs {
    var i := IndexOf(s.list, id);
    if i < 0 then s
    else
      var rest := s.list[..i] + s.list[i + 1..];
      var active := if s.active != Some(id) then s.active
                    else if i < |rest| then Some(rest[i].id)
                    else if i > 0 then Some(rest[i - 1].id) else None;
      s.(list := rest, active := active)
  }

  function Activated(s: Tabs, id: string): Tabs {
    if IndexOf(s.list, id) < 0 then s else s.(active := Some(id))
  }

  /** The remainder operator of JavaScript takes the sign of its left operand. */
  function Rem(a: int, n: nat): int
    requires n > 0
  {
    if a >= 0 then a % n else -((-a) % n)
  }

  function ActiveIndex(s: Tabs): int { if s.active.None? then -1 else IndexOf(s.list, s.active.value) }

  function Wrapped(i: int, n: nat): (j: nat)
    requires n > 0
    ensures j < n
  {
    (Rem(i, n) + n) % n
  }

  function Shifted(s: Tabs, delta: int): Tabs {
    if s.list == [] then s else Activated(s, s.list[Wrapped(ActiveIndex(s) + delta, |s.list|)].id)
  }

  function ActivatedAt(s: Tabs, index: int): Tabs {
    if 0 <= index < |s.list| then Activated(s, s.list[index].id) else s
  }

  // ------------------------------------------------------------------- invariant

  ghost predicate DistinctIds(list: seq<Tab>) {
    forall i, j :: 0 <= i < j < |list| ==> list[i].id != list[j].id
  }

  /** The id was handed out by the counter. */
  ghost predicate Issued(id: string, counter: nat) { exists k: nat :: 1 <= k <= counter && id == IdOf(k) }

  ghost predicate Inv(s: Tabs) {
    && DistinctIds(s.list)
    && (forall t <- s.list :: Issued(t.id, s.counter))
    && (s.active.None? <==> s.list == [])
    && (s.active.Some? ==> IndexOf(s.list, s.active.value) >= 0)
  }

  datatype Op =
    | Create
    | Fetch(id: string, address: string, record: bool, query: string)
    | Finish(id: string, ending: Ending)
    | Pop(id: string)
    | Close(id: string)
    | Activate(id: string)
    | Shift(delta: int)
    | At(index: int)

  function Apply(s: Tabs, op: Op): Tabs {
    match op
    case Create => Created(s)
    case Fetch(id, address, record, query) => Fetched(s, id, address, record, query)
    case Finish(id, ending) => Finished(s, id, ending)
    case Pop(id) => Popped(s, id)
    case Close(id) => Closed(s, id)
    case Activate(id) => Activated(s, id)
    case Shift(delta) => Shifted(s, delta)
    case At(index) => ActivatedAt(s, index)
  }

  function Run(ops: seq<Op>): Tabs {
    if ops == [] then Tabs([], None, 0) else Apply(Run(ops[..|ops| - 1]), ops[|ops| - 1])
  }

  lemma IdInjective(a: nat, b: nat)
    requires IdOf(a) == IdOf(b)
    ensures a == b
  {
    assert IdOf(a)[1..] == Digits(a) && IdOf(b)[1..] == Digits(b);
    ValueOfDigits(a);
    ValueOfDigits(b);
  }

  lemma FreshId(s: Tabs)
    requires Inv(s)
    ensures forall t <- s.list :: t.id != IdOf(s.counter + 1)
  {
    hide IdOf, IndexOf;
    forall t | t in s.list ensures t.id != IdOf(s.counter + 1) {
      assert Issued(t.id, s.counter);
      var k: nat :| 1 <= k <= s.counter && t.id == IdOf(k);
      if IdOf(k) == IdOf(s.counter + 1) {
        IdInjective(k, s.counter + 1);
      }
    }
  }

  lemma CreateKeepsInv(s: Tabs)
    requires Inv(s)
    ensures Inv(Created(s))
  {
    hide IdOf, IndexOf;
    FreshId(s);
    var r := Created(s);
    forall t | t in r.list ensures Issued(t.id, r.counter) {
      if t in s.list {
        assert Issued(t.id, s.counter);
      } else {
        assert t.id == IdOf(s.counter + 1);
      }
    }
    assert r.list[|s.list|] in r.list && r.list[|s.list|].id == r.active.value;
  }

  /** Changing tabs without changing their ids keeps the invariant. */
  lemma SameIdsKeepInv(s: Tabs, r: Tabs)
    requires Inv(s) && r.active == s.active && r.counter == s.counter && |r.list| == |s.list|
    requires forall i :: 0 <= i < |s.list| ==> r.list[i].id == s.list[i].id
    ensures Inv(r)
  {
    hide Issued, IndexOf;
    forall t | t in r.list ensures Issued(t.id, r.counter) {
      var i :| 0 <= i < |r.list| && r.list[i] == t;
      assert s.list[i] in s.list;
    }
    if s.active.Some? {
      var i := IndexOf(s.list, s.active.value);
      assert r.list[i] in r.list;
    }
  }

  lemma ActivateKeepsInv(s: Tabs, id: string)
    requires Inv(s)
    ensures Inv(Activated(s, id))
  {
    hide Issued, IndexOf, DistinctIds;
  }

  lemma CloseKeepsInv(s: Tabs, id: string)
    requires Inv(s)
    ensures Inv(Closed(s, id))
  {
    hide Issued, IndexOf, DistinctIds;
    var i, r := IndexOf(s.list, id), Closed(s, id);
    if i >= 0 {
      RestOfDistinct(s.list, i);
      assert s.list != [] && s.active.Some?;
      if s.active.value != id {
        OtherStays(s.list, i, s.active.value);
      } else if i < |r.list| {
        assert r.list[i] in r.list;
      } else if i > 0 {
        assert r.list[i - 1] in r.list;
      }
    }
  }

  lemma RestOfDistinct(list: seq<Tab>, i: nat)
    requires i < |list| && DistinctIds(list)
    ensures var rest := list[..i] + list[i + 1..];
            DistinctIds(rest) && forall t <- rest :: t in list
  {
    var rest := list[..i] + list[i + 1..];
    assert forall k :: 0 <= k < |rest| ==> rest[k] == list[if k < i then k else k + 1];
  }

  lemma OtherStays(list: seq<Tab>, i: nat, id: string)
    requires i < |list| && list[i].id != id && IndexOf(list, id) >= 0
    ensures IndexOf(list[..i] + list[i + 1..], id) >= 0
  {
    hide IndexOf;
    var rest, a := list[..i] + list[i + 1..], IndexOf(list, id);
    assert rest[if a < i then a else a - 1] == list[a];
    assert list[a] in rest;
  }

  /** Every run keeps ids distinct, and nothing is active exactly when there is
      no tab. */
  lemma {:induction false} RunKeepsInv(ops: seq<Op>)
    ensures Inv(Run(ops))
  {
    hide Inv;
    if ops == [] {
      EmptyInv();
    } else {
      RunKeepsInv(ops[..|ops| - 1]);
      ApplyKeepsInv(Run(ops[..|ops| - 1]), ops[|ops| - 1]);
    }
  }

  lemma EmptyInv()
    ensures Inv(Tabs([], None, 0))
  {
  }

  lemma ApplyKeepsInv(s: Tabs, op: Op)
    requires Inv(s)
    ensures Inv(Apply(s, op))
  {
    hide Inv;
    match op
    case Create => CreateKeepsInv(s);
    case Close(id) => CloseKeepsInv(s, id);
    case Activate(id) => ActivateKeepsInv(s, id);
    case Shift(delta) =>
      if s.list != [] {
        ActivateKeepsInv(s, s.list[Wrapped(ActiveIndex(s) + delta, |s.list|)].id);
      }
    case At(index) =>
      if 0 <= index < |s.list| {
        ActivateKeepsInv(s, s.list[index].id);
      }
    case _ => hide IndexOf; SameIdsKeepInv(s, Apply(s, op));
  }

  /** Closing takes out that tab and keeps the others in order; if it was the active
      one, the tab behind it becomes active, or the one before it when it was the
      last, or none when it was the only one. */
  lemma CloseActivatesNeighbour(s: Tabs, id: string)
    requires Inv(s) && IndexOf(s.list, id) >= 0
    ensures var r, i, n := Closed(s, id), IndexOf(s.list, id), |s.list|;
            && |r.list| == n - 1 && (forall k :: 0 <= k < i ==> r.list[k] == s.list[k])
            && (forall k :: i < k < n ==> r.list[k - 1] == s.list[k])
            && (s.active != Some(id) ==> r.active == s.active)
            && (s.active == Some(id) ==>
                  r.active == if i + 1 < n then Some(s.list[i + 1].id) else if i > 0 then Some(s.list[i - 1].id) else None)
  {
    hide IndexOf, Inv;
  }

  /** A long address is labelled by its first six and last four characters. */
  lemma ShortLabelEnds(a: string)
    requires |a| >= 10
    ensures |ShortLabel(a)| == 11
    ensures forall i :: 0 <= i < 6 ==> ShortLabel(a)[i] == a[i]
    ensures forall i :: 7 <= i < 11 ==> ShortLabel(a)[i] == a[|a| - 11 + i]
  {
  }

  /** The end of a load shows its outcome in that tab, titled by a page's envelope or
      a profile's name cut to 22 characters, and leaves its address, its back stack
      and every other tab alone. */
  lemma EndingShows(s: Tabs, id: string, e: Ending)
    requires IndexOf(s.list, id) >= 0
    ensures var r, i := Finished(s, id, e), IndexOf(s.list, id);
            && r.active == s.active && |r.list| == |s.list| && (forall j :: 0 <= j < |s.list| && j != i ==> r.list[j] == s.list[j])
            && var t, u := s.list[i], r.list[i];
               && u.id == t.id && u.address == t.address && u.history == t.history && u.query == t.query
               && (e.Page? ==> u.status == Rendered && u.rendition == Some(e.rendition) && u.error.None?)
               && (e.Profile? ==> u.status == Rendered && u.rendition.None? && u.display == Some(e.display))
               && (e.Problem? ==> u.status == Failed && u.error == Some(e.error) && u.shortLabel == t.shortLabel)
               && (!e.Problem? ==>
                     var name := if e.Profile? then e.display else e.rendition.title;
                     u.shortLabel == if e.Page? && (!e.rendition.envelope || name == "") then t.shortLabel
                                     else if |name| <= 22 then name else name[..21] + "\U{2026}")
  {
    hide IndexOf;
  }

  // ---------------------------------------------------------- status and fields

  /** A blank or loading tab shows nothing, a failed one has its error, and a
      rendered one has its page or its profile name. */
  predicate Shows(t: Tab) {
    match t.status
    case Blank => t.error.None? && t.rendition.None? && t.display.None? && t.address.None? && t.history == []
    case Loading => t.error.None? && t.rendition.None? && t.display.None? && t.address.Some?
    case Rendered => t.rendition.Some? || t.display.Some?
    case Failed => t.error.Some?
  }

  lemma ApplyShows(s: Tabs, op: Op)
    requires forall t <- s.list :: Shows(t)
    ensures forall t <- Apply(s, op).list :: Shows(t)
  {
    hide IndexOf, Wrapped, IdOf, ShortLabel, Cut;
    var r := Apply(s, op);
    assert op.Close? ==> forall t <- r.list :: t in s.list;
    forall t | t in r.list && t !in s.list ensures Shows(t) {
      match op
      case Create => assert t == NewTab(IdOf(s.counter + 1));
      case Fetch(id, address, record, query) => assert t == Moved(s.list[IndexOf(s.list, id)], address, record, query);
      case Finish(id, ending) => assert t == Ended(s.list[IndexOf(s.list, id)], ending);
      case Pop(id) =>
        var i := IndexOf(s.list, id);
        assert s.list[i] in s.list;
        assert t == s.list[i].(history := s.list[i].history[..|s.list[i].history| - 1]);
      case _ =>
    }
  }

  /** In every run every tab shows what its status says; so an error status always
      comes with its message. */
  lemma {:induction false} RunShows(ops: seq<Op>)
    ensures forall t <- Run(ops).list :: Shows(t)
  {
    hide Apply;
    if ops != [] {
      RunShows(ops[..|ops| - 1]);
      ApplyShows(Run(ops[..|ops| - 1]), ops[|ops| - 1]);
    }
  }

  // -------------------------------------------------------------------- cycling

  lemma SmallRemainder(a: nat, n: nat)
    requires a < n
    ensures a % n == a
  {
  }

  lemma OverOnce(a: nat, n: nat)
    requires n <= a < 2 * n
    ensures a % n == a - n
  {
    var q, r := a / n, a % n;
    assert a == q * n + r;
    assert q >= 2 ==> q * n >= 2 * n;
  }

  lemma WrapOnce(i: int, n: nat)
    requires n > 0 && -1 <= i <= n
    ensures Wrapped(i, n) == if i < 0 then n - 1 else if i < n then i else 0
  {
    if i == -1 {
      if n > 1 {
        SmallRemainder(1, n);
        SmallRemainder(n - 1, n);
      }
    } else if i < n {
      SmallRemainder(i, n);
      OverOnce(i + n, n);
    }
  }

  lemma IndexOfOwn(s: Tabs, i: nat)
    requires Inv(s) && i < |s.list|
    ensures IndexOf(s.list, s.list[i].id) == i
  {
    assert s.list[i] in s.list;
  }

  /** One step moves the active index by one, around the ends. */
  lemma ShiftMoves(s: Tabs, delta: int)
    requires Inv(s) && s.list != [] && (delta == 1 || delta == -1)
    ensures Shifted(s, delta).list == s.list && Inv(Shifted(s, delta))
    ensures 0 <= ActiveIndex(s) < |s.list|
    ensures ActiveIndex(Shifted(s, delta)) == Wrapped(ActiveIndex(s) + delta, |s.list|)
    ensures Shifted(s, delta).counter == s.counter
  {
    hide Issued, IndexOf, DistinctIds, Wrapped;
    var j := Wrapped(ActiveIndex(s) + delta, |s.list|);
    IndexOfOwn(s, j);
    ActivateKeepsInv(s, s.list[j].id);
  }

  /** The active index says which tab is active. */
  lemma ActiveByIndex(s: Tabs, r: Tabs)
    requires Inv(s) && Inv(r) && s.list == r.list && s.counter == r.counter
    requires s.list != [] ==> ActiveIndex(s) == ActiveIndex(r)
    ensures s == r
  {
    hide Issued, IndexOf, DistinctIds;
  }

  lemma NextThenPrev(s: Tabs)
    requires Inv(s)
    ensures Shifted(Shifted(s, 1), -1) == s
    ensures Shifted(Shifted(s, -1), 1) == s
  {
    hide Inv, Wrapped, Shifted;
    if s.list != [] {
      BackAndForth(s, 1);
      BackAndForth(s, -1);
    } else {
      assert Shifted(s, 1) == s && Shifted(s, -1) == s by {
        ShiftEmpty(s, 1);
        ShiftEmpty(s, -1);
      }
    }
  }

  lemma ShiftEmpty(s: Tabs, delta: int)
    requires s.list == []
    ensures Shifted(s, delta) == s
  {
  }

  lemma BackAndForth(s: Tabs, delta: int)
    requires Inv(s) && s.list != [] && (delta == 1 || delta == -1)
    ensures Shifted(Shifted(s, delta), -delta) == s
  {
    hide Wrapped, Inv, IndexOf, Shifted, ActiveIndex;
    var m := Shifted(s, delta);
    ShiftMoves(s, delta);
    WrapOnce(ActiveIndex(s) + delta, |s.list|);
    ShiftMoves(m, -delta);
    WrapOnce(ActiveIndex(m) - delta, |s.list|);
    ActiveByIndex(Shifted(m, -delta), s);
  }

  function Nexts(s: Tabs, n: nat): Tabs { if n == 0 then s else Shifted(Nexts(s, n - 1), 1) }

  lemma {:induction false} NextsMove(s: Tabs, n: nat)
    requires Inv(s) && s.list != [] && n <= |s.list|
    ensures var r, i := Nexts(s, n), ActiveIndex(s) + n;
            && Inv(r) && r.list == s.list && r.counter == s.counter
            && ActiveIndex(r) == if i < |s.list| then i else i - |s.list|
  {
    hide Wrapped, Inv, IndexOf, Shifted, ActiveIndex;
    ShiftMoves(s, 1);
    if n > 0 {
      var m := Nexts(s, n - 1);
      NextsMove(s, n - 1);
      ShiftMoves(m, 1);
      WrapOnce(ActiveIndex(m) + 1, |s.list|);
    }
  }

  /** As many steps as there are tabs come back to the start. */
  lemma FullCircle(s: Tabs)
    requires Inv(s)
    ensures Nexts(s, |s.list|) == s
  {
    hide Inv, IndexOf, Shifted, ActiveIndex;
    if s.list != [] {
      NextsMove(s, |s.list|);
      ShiftMoves(s, 1);
      ActiveByIndex(Nexts(s, |s.list|), s);
    }
  }

  // -------------------------------------------------------------------- the store

  class Store {
    var list: seq<Tab>
    var activeId: Option<string>
    var counter: nat

    function View(): Tabs
      reads this
    {
      Tabs(list, activeId, counter)
    }

    constructor ()
      ensures View() == Tabs([], None, 0) && Inv(View())
    {
      list, activeId, counter := [], None, 0;
    }

    method CreateEmpty() returns (id: string)
      modifies this
      ensures View() == Created(old(View())) && activeId == Some(id)
    {
      counter := counter + 1;
      id := IdOf(counter);
      list := list + [NewTab(id)];
      activeId := Some(id);
    }

    method StartFetch(id: string, address: string, record: bool, query: string)
      modifies this
      ensures View() == Fetched(old(View()), id, address, record, query)
    {
      var i := IndexOf(list, id);
      if i < 0 {
        return;
      }
      var tab := list[i];
      if record && tab.address.Some? && tab.address.value != "" && tab.address.value != address {
        tab := tab.(history := tab.history + [tab.address.value]);
      }
      tab := tab.(address := Some(address), query := query, shortLabel := ShortLabel(address));
      tab := tab.(status := Loading, error := None, rendition := None, display := None);
      list := list[i := tab];
    }

    method PopHistory(id: string) returns (past: Option<string>)
      modifies this
      ensures View() == Popped(old(View()), id) && past == LastPast(old(View()), id)
    {
      var i := IndexOf(list, id);
      if i < 0 || list[i].history == [] {
        return None;
      }
      var h := list[i].history;
      past := Some(h[|h| - 1]);
      list := list[i := list[i].(history := h[..|h| - 1])];
    }

    method SetRendered(id: string, rendition: Rendition)
      modifies this
      ensures View() == Finished(old(View()), id, Page(rendition))
    {
      var i := IndexOf(list, id);
      if i < 0 {
        return;
      }
      list := list[i := list[i].(status := Rendered, rendition := Some(rendition), error := None)];
      if rendition.envelope && rendition.title != "" {
        list := list[i := list[i].(shortLabel := Cut(rendition.title))];
      }
    }

    method RenderProfile(id: string, display: string)
      modifies this
      ensures View() == Finished(old(View()), id, Profile(display))
    {
      var i := IndexOf(list, id);
      if i < 0 {
        return;
      }
      list := list[i := list[i].(status := Rendered, rendition := None, display := Some(display), shortLabel := Cut(display))];
    }

    method SetError(id: string, error: string)
      modifies this
      ensures View() == Finished(old(View()), id, Problem(error))
    {
      var i := IndexOf(list, id);
      if i < 0 {
        return;
      }
      list := list[i := list[i].(status := Failed, error := Some(error))];
    }

    method Close(id: string)
      modifies this
      ensures View() == Closed(old(View()), id)
    {
      var i := IndexOf(list, id);
      if i < 0 {
        return;
      }
      list := list[..i] + list[i + 1..];
      if activeId == Some(id) {
        activeId := if i < |list| then Some(list[i].id) else if i > 0 then Some(list[i - 1].id) else None;
      }
    }

    method Activate(id: string)
      requires Inv(View())
      modifies this
      ensures View() == Activated(old(View()), id)
    {
      hide IndexOf, Issued, DistinctIds;
      if activeId == Some(id) {
        return;
      }
      if IndexOf(list, id) >= 0 {
        activeId := Some(id);
      }
    }

    method Shift(delta: int)
      requires Inv(View())
      modifies this
      ensures View() == Shifted(old(View()), delta)
    {
      hide Inv, Wrapped, IndexOf, Activated;
      if |list| == 0 {
        return;
      }
      var i := if activeId.None? then -1 else IndexOf(list, activeId.value);
      Activate(list[Wrapped(i + delta, |list|)].id);
    }
  }
}
