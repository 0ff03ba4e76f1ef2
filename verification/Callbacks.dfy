/** The registry of event handlers: a list with numbered entries, erased from while it is being walked. */
module Callbacks {
  import opened Wrappers

  /** `ARDUINO_EVENT_MAX`: as a filter, every event. */
  const EVENT_MAX := 40

  /** A plain function, a function object, or a function taking the whole event. */
  datatype Callback = Plain(fn: nat) | Func(fn: nat) | Sys(fn: nat)

  datatype Handler = Handler(id: nat, callback: Callback, event: nat)

  /** The next id to give out, a `size_t`, and the handlers in registration order. */
  datatype Registry = Registry(currentId: nat, list: seq<Handler>)

  /** What a removal looks for. */
  datatype Key = ById(id: nat) | ByCallback(callback: Callback, event: nat)

  predicate Selects(key: Key, h: Handler) {
    match key
    case ById(id) => h.id == id
    case ByCallback(callback, event) => h.callback == callback && h.event == event
  }

  function Filter<T>(keep: T -> bool, s: seq<T>): seq<T> {
    if s == [] then []
    else if keep(s[0]) then [s[0]] + Filter(keep, s[1..])
    else Filter(keep, s[1..])
  }

  lemma {:induction false} FilterSnoc<T>(keep: T -> bool, s: seq<T>, x: T)
    ensures Filter(keep, s + [x]) == Filter(keep, s) + if keep(x) then [x] else []
  {
    if s == [] {
      assert s + [x] == [x];
    } else {
      assert (s + [x])[1..] == s[1..] + [x];
      FilterSnoc(keep, s[1..], x);
    }
  }

  function Register(r: Registry, callback: Option<Callback>, event: nat): Registry {
    match callback
    case None => r
    case Some(cb) => Registry((r.currentId + 1) % TWO_TO_THE_32, r.list + [Handler(r.currentId, cb, event)])
  }

  /** Erasing while walking: an erased entry's successor is passed over unseen. */
  function EraseAndSkip(list: seq<Handler>, key: Key): seq<Handler>
    decreases |list|
  {
    if list == [] then []
    else if !Selects(key, list[0]) then [list[0]] + EraseAndSkip(list[1..], key)
    else if |list| == 1 then []
    else [list[1]] + EraseAndSkip(list[2..], key)
  }

  /** The walk itself, from an index on. */
  function Walk(list: seq<Handler>, i: nat, key: Key): seq<Handler>
    decreases |list| - i
  {
    if i >= |list| then list
    else if Selects(key, list[i]) then Walk(Erased(list, i), i + 1, key)
    else Walk(list, i + 1, key)
  }

  function Erased(list: seq<Handler>, i: nat): seq<Handler>
    requires i < |list|
  {
    list[..i] + list[i + 1..]
  }

  lemma ErasedAt(done: seq<Handler>, rest: seq<Handler>)
    requires rest != []
    ensures Erased(done + rest, |done|) == done + rest[1..]
  {
  }

  /** With `done` already passed and `rest` to come, the walk leaves `done` alone and erases from `rest`. */
  lemma {:induction false} WalkErasesAndSkips(done: seq<Handler>, rest: seq<Handler>, key: Key)
    ensures Walk(done + rest, |done|, key) == done + EraseAndSkip(rest, key)
    decreases |rest|
  {
    if rest == [] {
      assert done + rest == done;
    } else if Selects(key, rest[0]) {
      ErasedAt(done, rest);
      if |rest| == 1 {
        assert done + rest[1..] == done;
      } else {
        PassOne(done, rest[1..], key);
        WalkErasesAndSkips(done + [rest[1]], rest[2..], key);
      }
    } else {
      PassOne(done, rest, key);
      WalkErasesAndSkips(done + [rest[0]], rest[1..], key);
    }
  }

  lemma PassOne(done: seq<Handler>, rest: seq<Handler>, key: Key)
    requires rest != []
    ensures done + rest == (done + [rest[0]]) + rest[1..]
    ensures forall tail: seq<Handler> :: done + ([rest[0]] + tail) == (done + [rest[0]]) + tail
  {
  }

  predicate Hears(h: Handler, event: nat) {
    h.event == event || h.event == EVENT_MAX
  }

  class WiFiEvents {
    var currentId: nat
    var list: seq<Handler>

    ghost function Value(): Registry
      reads this
    {
      Registry(currentId, list)
    }

    constructor ()
      ensures Value() == Registry(1, [])
    {
      currentId, list := 1, [];
    }

    method OnEvent(callback: Option<Callback>, event: nat) returns (id: nat)
      modifies this
      ensures Value() == Register(old(Value()), callback, event)
      ensures id == if callback.None? then 0 else old(currentId)
    {
      if callback.None? {
        return 0;
      }
      var handler := Handler(currentId, callback.value, event);
      currentId := (currentId + 1) % TWO_TO_THE_32;
      list := list + [handler];
      return handler.id;
    }

    method Erase(key: Key)
      modifies this`list
      ensures list == EraseAndSkip(old(list), key)
    {
      var i := 0;
      while i < |list|
        invariant Walk(list, i, key) == Walk(old(list), 0, key)
        decreases |list| - i
      {
        var entry := list[i];
        if Selects(key, entry) {
          list := list[..i] + list[i + 1..];
        }
        i := i + 1;
      }
      WalkErasesAndSkips([], old(list), key);
      assert [] + old(list) == old(list);
    }

    /** Function objects cannot be compared, so only the other two kinds are removed this way. */
    method RemoveByCallback(callback: Option<Callback>, event: nat)
      requires callback.Some? ==> !callback.value.Func?
      modifies this`list
      ensures list == if callback.None? then old(list) else EraseAndSkip(old(list), ByCallback(callback.value, event))
    {
      if callback.None? {
        return;
      }
      Erase(ByCallback(callback.value, event));
    }

    method RemoveById(id: nat)
      modifies this`list
      ensures list == EraseAndSkip(old(list), ById(id))
    {
      Erase(ById(id));
    }

    /** Calls made for an event, in order; handlers are assumed not to edit the list. */
    method Dispatch(event: nat) returns (called: seq<Callback>)
      ensures called == Callbacks(Filter((h: Handler) => Hears(h, event), list)) == CallsDue(list, event, |list|)
    {
      called := [];
      var i := 0;
      while i < |list|
        invariant i <= |list|
        invariant called == Callbacks(Filter((h: Handler) => Hears(h, event), list[..i]))
      {
        var entry := list[i];
        assert list[..i + 1] == list[..i] + [entry];
        FilterSnoc((h: Handler) => Hears(h, event), list[..i], entry);
        if entry.event == event || entry.event == EVENT_MAX {
          CallbacksSnoc(Filter((h: Handler) => Hears(h, event), list[..i]), entry);
          called := called + [entry.callback];
        }
        i := i + 1;
      }
      assert list[..i] == list;
      CallsMadeExactly(list, event, |list|);
    }
  }

  function Callbacks(list: seq<Handler>): seq<Callback> {
    seq(|list|, i requires 0 <= i < |list| => list[i].callback)
  }

  lemma CallbacksSnoc(list: seq<Handler>, h: Handler)
    ensures Callbacks(list + [h]) == Callbacks(list) + [h.callback]
  {
  }

  // ----- What a removal does ---------------------------------------------------------

  /** No two neighbours are both selected. */
  ghost predicate NoNeighbours(list: seq<Handler>, key: Key) {
    forall i | 0 <= i < |list| - 1 :: !(Selects(key, list[i]) && Selects(key, list[i + 1]))
  }

  function Unselected(list: seq<Handler>, key: Key): seq<Handler> {
    Filter((h: Handler) => !Selects(key, h), list)
  }

  /** Handlers that do not match survive, in their order. */
  lemma {:induction false} RemovalKeepsOthers(list: seq<Handler>, key: Key)
    ensures Unselected(EraseAndSkip(list, key), key) == Unselected(list, key)
    decreases |list|
  {
    if list != [] {
      if !Selects(key, list[0]) {
        RemovalKeepsOthers(list[1..], key);
        var rest := EraseAndSkip(list[1..], key);
        assert ([list[0]] + rest)[1..] == rest;
      } else if |list| > 1 {
        RemovalKeepsOthers(list[2..], key);
        var rest := EraseAndSkip(list[2..], key);
        assert ([list[1]] + rest)[1..] == rest;
        assert list[1..][0] == list[1] && list[1..][1..] == list[2..];
        assert Unselected(list, key) == Unselected(list[1..], key);
      }
    }
  }

  /** An entry stays unless it is asked to go; but one right behind an entry that went stays anyway. */
  predicate Stays(list: seq<Handler>, key: Key, i: nat)
    requires i < |list|
  {
    || !match key {
          case ById(id) => list[i].id == id
          case ByCallback(callback, event) => list[i].callback == callback && list[i].event == event
        }
    || (i > 0 && !Stays(list, key, i - 1))
  }

  /** Those of the first n entries that stay. */
  function Staying(list: seq<Handler>, key: Key, n: nat): seq<Handler>
    requires n <= |list|
  {
    if n == 0 then []
    else Staying(list, key, n - 1) + if Stays(list, key, n - 1) then [list[n - 1]] else []
  }

  lemma {:induction false} StayingOnward(list: seq<Handler>, key: Key, i: nat)
    requires i <= |list| && (i > 0 ==> Stays(list, key, i - 1))
    ensures Staying(list, key, |list|) == Staying(list, key, i) + EraseAndSkip(list[i..], key)
    decreases |list| - i
  {
    if i < |list| {
      var before, rest := Staying(list, key, i), list[i..];
      assert rest[1..] == list[i + 1..] && (|rest| > 1 ==> rest[2..] == list[i + 2..]);
      if Selects(key, list[i]) {
        assert !Stays(list, key, i);
        assert Staying(list, key, i + 1) == before;
        if |rest| > 1 {
          StayingOnward(list, key, i + 2);
          Assoc(before, [list[i + 1]], EraseAndSkip(list[i + 2..], key));
        }
      } else {
        StayingOnward(list, key, i + 1);
        Assoc(before, [list[i]], EraseAndSkip(list[i + 1..], key));
      }
    }
  }

  /** A removal leaves exactly those entries, in their order. */
  lemma RemovalLeavesExactly(list: seq<Handler>, key: Key)
    ensures EraseAndSkip(list, key) == Staying(list, key, |list|)
  {
    StayingOnward(list, key, 0);
    assert list[0..] == list;
  }

  /** Callbacks of those of the first n entries that are registered for the event, or for every event. */
  function CallsDue(list: seq<Handler>, event: nat, n: nat): seq<Callback>
    requires n <= |list|
  {
    if n == 0 then []
    else CallsDue(list, event, n - 1) + if list[n - 1].event in {event, 40} then [list[n - 1].callback] else []
  }

  /** The calls an event leads to are exactly those that are due. */
  lemma {:induction false} CallsMadeExactly(list: seq<Handler>, event: nat, n: nat)
    requires n <= |list|
    ensures Callbacks(Filter((h: Handler) => Hears(h, event), list[..n])) == CallsDue(list, event, n)
  {
    if n > 0 {
      CallsMadeExactly(list, event, n - 1);
      var before := list[..n - 1];
      assert list[..n] == before + [list[n - 1]];
      FilterSnoc((h: Handler) => Hears(h, event), before, list[n - 1]);
      CallbacksSnoc(Filter((h: Handler) => Hears(h, event), before), list[n - 1]);
    }
  }

  /** Every match goes exactly when no two matches stand next to each other. */
  lemma {:induction false} RemovalIsCompleteIff(list: seq<Handler>, key: Key)
    ensures (forall h | h in EraseAndSkip(list, key) :: !Selects(key, h)) <==> NoNeighbours(list, key)
    decreases |list|
  {
    if list != [] {
      if !Selects(key, list[0]) {
        RemovalIsCompleteIff(list[1..], key);
        NoNeighboursTail(list, key);
      } else if |list| > 1 {
        RemovalIsCompleteIff(list[2..], key);
        if Selects(key, list[1]) {
          assert list[1] in EraseAndSkip(list, key);
        } else {
          NoNeighboursTail(list, key);
          NoNeighboursTail(list[1..], key);
          assert list[1..][1..] == list[2..];
        }
      }
    }
  }

  /** A handler registered twice for an event and removed once is still registered, under the second id. */
  lemma RemovalMissesNeighbour(callback: Callback, event: nat)
    ensures Run([On(Some(callback), event), On(Some(callback), event), Remove(ByCallback(callback, event))]).list
         == [Handler(2, callback, event)]
  {
    var first, key := On(Some(callback), event), ByCallback(callback, event);
    var ops := [first, first, Remove(key)];
    assert ops[..2] == [first, first] && ops[..2][..1] == [first] && ops[..2][..1][..0] == [];
    assert Run([first]) == Registry(2, [Handler(1, callback, event)]);
    assert Run([first, first]) == Registry(3, [Handler(1, callback, event), Handler(2, callback, event)]);
    assert EraseAndSkip(Run([first, first]).list, key) == [Handler(2, callback, event)];
  }

  lemma NoNeighboursTail(list: seq<Handler>, key: Key)
    requires list != []
    requires Selects(key, list[0]) ==> |list| == 1 || !Selects(key, list[1])
    ensures NoNeighbours(list, key) <==> NoNeighbours(list[1..], key)
  {
  }

  lemma {:induction false} FilterAll<T>(keep: T -> bool, s: seq<T>)
    requires forall x | x in s :: keep(x)
    ensures Filter(keep, s) == s
  {
    if s != [] {
      FilterAll(keep, s[1..]);
    }
  }

  /** Without neighbouring matches a removal is exactly a filter. */
  lemma RemovalIsFilter(list: seq<Handler>, key: Key)
    requires NoNeighbours(list, key)
    ensures EraseAndSkip(list, key) == Unselected(list, key)
  {
    RemovalIsCompleteIff(list, key);
    RemovalKeepsOthers(list, key);
    FilterAll((h: Handler) => !Selects(key, h), EraseAndSkip(list, key));
  }

  // ----- Ids over whole runs ------------------------------------------------------------

  datatype Op = On(callback: Option<Callback>, event: nat) | Remove(key: Key)

  function Step(r: Registry, op: Op): Registry {
    match op
    case On(callback, event) => Register(r, callback, event)
    case Remove(key) => r.(list := EraseAndSkip(r.list, key))
  }

  function Run(ops: seq<Op>): Registry {
    if ops == [] then Registry(1, []) else Step(Run(ops[..|ops| - 1]), ops[|ops| - 1])
  }

  /** Registrations that were given an id. */
  function Registrations(ops: seq<Op>): nat {
    if ops == [] then 0
    else
      var last := ops[|ops| - 1];
      Registrations(ops[..|ops| - 1]) + if last.On? && last.callback.Some? then 1 else 0
  }

  /** The id counter is the number of registrations, in 32 bits. */
  lemma CountOn(n: nat)
    ensures (n % TWO_TO_THE_32 + 1) % TWO_TO_THE_32 == (n + 1) % TWO_TO_THE_32
  {
    var q, r := n / TWO_TO_THE_32, n % TWO_TO_THE_32;
    if r + 1 < TWO_TO_THE_32 {
      DivMod(n + 1, q, r + 1);
    } else {
      DivMod(n + 1, q + 1, 0);
    }
  }

  lemma DivMod(n: nat, q: nat, r: nat)
    requires n == TWO_TO_THE_32 * q + r && r < TWO_TO_THE_32
    ensures n % TWO_TO_THE_32 == r
  {
  }

  lemma {:induction false} IdsAreCounted(ops: seq<Op>)
    ensures Run(ops).currentId == (Registrations(ops) + 1) % TWO_TO_THE_32
  {
    if ops != [] {
      IdsAreCounted(ops[..|ops| - 1]);
      CountOn(Registrations(ops[..|ops| - 1]) + 1);
    }
  }

  /** Entry k is the one registered as number `ns[k]`, and carries that number in 32 bits; numbers lie in (low, high]. */
  ghost predicate Numbered(list: seq<Handler>, ns: seq<nat>, low: nat, high: nat) {
    && |ns| == |list|
    && (forall i, j | 0 <= i < j < |ns| :: ns[i] < ns[j])
    && forall i | 0 <= i < |ns| :: low < ns[i] <= high && list[i].id == ns[i] % TWO_TO_THE_32
  }

  lemma Prepend(h: Handler, n: nat, list: seq<Handler>, ns: seq<nat>, low: nat, high: nat)
    requires Numbered(list, ns, n, high) && low < n <= high && h.id == n % TWO_TO_THE_32
    ensures Numbered([h] + list, [n] + ns, low, high)
  {
  }

  lemma {:induction false} RemovalKeepsNumbers(list: seq<Handler>, key: Key, ns: seq<nat>, low: nat, high: nat)
      returns (left: seq<nat>)
    requires Numbered(list, ns, low, high)
    ensures Numbered(EraseAndSkip(list, key), left, low, high)
    decreases |list|
  {
    if list == [] || (|list| == 1 && Selects(key, list[0])) {
      left := [];
    } else {
      var k := if Selects(key, list[0]) then 1 else 0;
      var rest := RemovalKeepsNumbers(list[k + 1..], key, ns[k + 1..], ns[k], high);
      Prepend(list[k], ns[k], EraseAndSkip(list[k + 1..], key), rest, low, high);
      left := [ns[k]] + rest;
    }
  }

  /** After any run the entries carry the numbers of their registrations, in order, in 32 bits. */
  lemma {:induction false} IdsAreNumbers(ops: seq<Op>) returns (ns: seq<nat>)
    ensures Numbered(Run(ops).list, ns, 0, Registrations(ops))
  {
    if ops == [] {
      ns := [];
    } else {
      var before := Run(ops[..|ops| - 1]);
      var numbers := IdsAreNumbers(ops[..|ops| - 1]);
      match ops[|ops| - 1]
      case On(callback, event) =>
        IdsAreCounted(ops[..|ops| - 1]);
        ns := if callback.None? then numbers else numbers + [Registrations(ops)];
      case Remove(key) =>
        ns := RemovalKeepsNumbers(before.list, key, numbers, 0, Registrations(ops));
    }
  }

  ghost predicate NonzeroIncreasing(list: seq<Handler>) {
    && (forall h | h in list :: h.id != 0)
    && forall i, j | 0 <= i < j < |list| :: list[i].id < list[j].id
  }

  lemma {:induction false} FewerBefore(ops: seq<Op>, k: nat)
    requires k <= |ops|
    ensures Registrations(ops[..k]) <= Registrations(ops)
  {
    if k == |ops| {
      assert ops[..k] == ops;
    } else {
      assert ops[..|ops| - 1][..k] == ops[..k];
      FewerBefore(ops[..|ops| - 1], k);
    }
  }

  lemma SmallMod(n: nat)
    requires n < TWO_TO_THE_32
    ensures n % TWO_TO_THE_32 == n
  {
  }

  lemma NumbersBelowWrap(list: seq<Handler>, ns: seq<nat>, high: nat)
    requires Numbered(list, ns, 0, high) && high < TWO_TO_THE_32
    ensures NonzeroIncreasing(list)
  {
    forall i | 0 <= i < |ns|
      ensures list[i].id == ns[i]
    {
      SmallMod(ns[i]);
    }
  }

  /** The registration number 2^32 of a run is given the id 0. */
  lemma {:induction false} WrapGivesZero(ops: seq<Op>) returns (k: nat)
    requires Registrations(ops) >= TWO_TO_THE_32
    ensures k <= |ops| && !NonzeroIncreasing(Run(ops[..k]).list)
  {
    var n := |ops| - 1;
    if Registrations(ops[..n]) >= TWO_TO_THE_32 {
      k := WrapGivesZero(ops[..n]);
      assert ops[..n][..k] == ops[..k];
    } else {
      k := |ops|;
      IdsAreCounted(ops[..n]);
      assert ops[..k] == ops;
      var list := Run(ops).list;
      assert list[|list| - 1].id == 0;
    }
  }

  /** Ids are nonzero and in registration order throughout a run exactly when it makes fewer than 2^32 registrations. */
  lemma IdsStayIncreasing(ops: seq<Op>)
    ensures (forall k | 0 <= k <= |ops| :: NonzeroIncreasing(Run(ops[..k]).list)) <==> Registrations(ops) < TWO_TO_THE_32
  {
    if Registrations(ops) < TWO_TO_THE_32 {
      forall k | 0 <= k <= |ops|
        ensures NonzeroIncreasing(Run(ops[..k]).list)
      {
        FewerBefore(ops, k);
        var ns := IdsAreNumbers(ops[..k]);
        NumbersBelowWrap(Run(ops[..k]).list, ns, Registrations(ops[..k]));
      }
    } else {
      var k := WrapGivesZero(ops);
    }
  }

  ghost predicate Distinct(list: seq<Handler>) {
    forall i, j | 0 <= i < j < |list| :: list[i].id != list[j].id
  }

  lemma ModDistinct(m: nat, n: nat)
    requires 0 < m < n <= TWO_TO_THE_32
    ensures m % TWO_TO_THE_32 != n % TWO_TO_THE_32
  {
    SmallMod(m);
    if n < TWO_TO_THE_32 {
      SmallMod(n);
    }
  }

  lemma NumbersUpToWrap(list: seq<Handler>, ns: seq<nat>, high: nat)
    requires Numbered(list, ns, 0, high) && high <= TWO_TO_THE_32
    ensures Distinct(list)
  {
    forall i, j | 0 <= i < j < |list|
      ensures list[i].id != list[j].id
    {
      ModDistinct(ns[i], ns[j]);
    }
  }

  /** In any run of up to 2^32 registrations, removing by id removes exactly that handler. */
  lemma RemovalByIdIsExact(ops: seq<Op>, id: nat)
    requires Registrations(ops) <= TWO_TO_THE_32
    ensures Distinct(Run(ops).list)
    ensures EraseAndSkip(Run(ops).list, ById(id)) == Filter((h: Handler) => h.id != id, Run(ops).list)
  {
    var ns := IdsAreNumbers(ops);
    NumbersUpToWrap(Run(ops).list, ns, Registrations(ops));
    RemovalIsFilter(Run(ops).list, ById(id));
    FilterSame((h: Handler) => !Selects(ById(id), h), (h: Handler) => h.id != id, Run(ops).list);
  }

  lemma {:induction false} FilterSame<T>(f: T -> bool, g: T -> bool, s: seq<T>)
    requires forall x | x in s :: f(x) == g(x)
    ensures Filter(f, s) == Filter(g, s)
  {
    if s != [] {
      FilterSame(f, g, s[1..]);
    }
  }

  /** n registrations and nothing else. */
  function Registering(n: nat): seq<Op> {
    if n == 0 then [] else Registering(n - 1) + [On(Some(Plain(0)), EVENT_MAX)]
  }

  lemma {:induction false} RegisteringCounts(n: nat)
    ensures Registrations(Registering(n)) == n && |Run(Registering(n)).list| == n
    ensures n > 0 ==> Registering(n)[..|Registering(n)| - 1] == Registering(n - 1)
  {
    if n > 0 {
      RegisteringCounts(n - 1);
      assert Registering(n)[..|Registering(n)| - 1] == Registering(n - 1);
    }
  }

  /** n numbers in order from 1 to n are 1, 2 and so on. */
  lemma {:induction false} FullNumbering(list: seq<Handler>, ns: seq<nat>, k: nat)
    requires Numbered(list, ns, 0, |list|) && k < |list|
    ensures ns[k] == k + 1
  {
    AtLeastPosition(ns, k);
    AtMostPosition(ns, k);
  }

  lemma {:induction false} AtLeastPosition(ns: seq<nat>, k: nat)
    requires k < |ns| && (forall i, j | 0 <= i < j < |ns| :: ns[i] < ns[j]) && ns[0] > 0
    ensures ns[k] >= k + 1
  {
    if k > 0 {
      AtLeastPosition(ns, k - 1);
      assert ns[k - 1] < ns[k];
    }
  }

  lemma {:induction false} AtMostPosition(ns: seq<nat>, k: nat)
    requires k < |ns| && (forall i, j | 0 <= i < j < |ns| :: ns[i] < ns[j]) && ns[|ns| - 1] <= |ns|
    ensures ns[k] <= k + 1
    decreases |ns| - k
  {
    if k < |ns| - 1 {
      AtMostPosition(ns, k + 1);
      assert ns[k] < ns[k + 1];
    }
  }

  /** The bound is real: registrations alone keep their ids apart exactly up to 2^32 of them. */
  lemma IdsDistinctIff(n: nat)
    ensures Distinct(Run(Registering(n)).list) <==> n <= TWO_TO_THE_32
  {
    var list := Run(Registering(n)).list;
    RegisteringCounts(n);
    var ns := IdsAreNumbers(Registering(n));
    if n <= TWO_TO_THE_32 {
      NumbersUpToWrap(list, ns, n);
    } else {
      FullNumbering(list, ns, 0);
      FullNumbering(list, ns, TWO_TO_THE_32);
      assert list[0].id == list[TWO_TO_THE_32].id;
    }
  }
}
