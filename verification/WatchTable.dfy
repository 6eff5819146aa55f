/** The table of watched file descriptors and the poll dispatch of platforms/linux/src/platform.c. */
module WatchTable {
  import opened Bytes

  const MAX_WATCHED_FDS: nat := 8

  /** A function pointer other than NULL. */
  type Callback = nat

  datatype Slot = Slot(fd: int, cb: Option<Callback>)

  // ---------------------------------------------------------------- the table as a list and as a map

  /** Where the scan loops stop: at the first -1, or at the end of the array. */
  function Count(slots: seq<Slot>): (n: nat)
    ensures n <= |slots|
    ensures forall k :: 0 <= k < n ==> slots[k].fd != -1
    ensures n < |slots| ==> slots[n].fd == -1
  {
    if slots == [] || slots[0].fd == -1 then 0 else 1 + Count(slots[1..])
  }

  lemma CountIs(slots: seq<Slot>, n: nat)
    requires n <= |slots| && (forall k :: 0 <= k < n ==> slots[k].fd != -1)
    requires n < |slots| ==> slots[n].fd == -1
    ensures Count(slots) == n
  {
  }

  /** Distinct, valid descriptors, no more than the array holds. */
  ghost predicate Registered(entries: seq<Slot>) {
    && |entries| <= MAX_WATCHED_FDS
    && (forall k :: 0 <= k < |entries| ==> entries[k].fd >= 0)
    && (forall j, k :: 0 <= j < k < |entries| ==> entries[j].fd != entries[k].fd)
  }

  /** The finite map that the entries stand for. */
  function AsMap(entries: seq<Slot>): map<int, Option<Callback>> {
    if entries == [] then map[]
    else
      var last := entries[|entries| - 1];
      AsMap(entries[..|entries| - 1])[last.fd := last.cb]
  }

  ghost predicate Has(entries: seq<Slot>, fd: int) {
    exists k :: 0 <= k < |entries| && entries[k].fd == fd
  }

  lemma {:induction false} AsMapKeys(entries: seq<Slot>)
    ensures forall fd :: fd in AsMap(entries) <==> Has(entries, fd)
    decreases |entries|
  {
    if entries != [] {
      var last := |entries| - 1;
      AsMapKeys(entries[..last]);
      forall fd
        ensures Has(entries, fd) <==> fd == entries[last].fd || Has(entries[..last], fd)
      {
        HasLast(entries, fd);
      }
    }
  }

  lemma HasLast(entries: seq<Slot>, fd: int)
    requires entries != []
    ensures Has(entries, fd) <==> fd == entries[|entries| - 1].fd || Has(entries[..|entries| - 1], fd)
  {
    var rest := entries[..|entries| - 1];
    if Has(rest, fd) {
      var k :| 0 <= k < |rest| && rest[k].fd == fd;
      assert entries[k].fd == fd;
    }
    if fd == entries[|entries| - 1].fd {
      assert entries[|entries| - 1].fd == fd;
    }
    if Has(entries, fd) && fd != entries[|entries| - 1].fd {
      var k :| 0 <= k < |entries| && entries[k].fd == fd;
      assert rest[k].fd == fd;
    }
  }

  lemma {:induction false} AsMapHolds(entries: seq<Slot>)
    requires Registered(entries)
    ensures |AsMap(entries)| == |entries|
    ensures forall k :: 0 <= k < |entries| ==>
              entries[k].fd in AsMap(entries) && AsMap(entries)[entries[k].fd] == entries[k].cb
    ensures forall fd :: fd in AsMap(entries) ==> Has(entries, fd)
    decreases |entries|
  {
    AsMapKeys(entries);
    if entries != [] {
      var last := |entries| - 1;
      var rest := entries[..last];
      AsMapHolds(rest);
      AsMapKeys(rest);
      hide Has;
      assert entries[last].fd !in AsMap(rest) by { LastIsNew(entries); }
      assert AsMap(entries) == AsMap(rest)[entries[last].fd := entries[last].cb];
    }
  }

  lemma LastIsNew(entries: seq<Slot>)
    requires Registered(entries) && entries != []
    ensures !Has(entries[..|entries| - 1], entries[|entries| - 1].fd)
  {
  }

  /** A map with exactly the entries' pairs is the entries' map. */
  lemma AsMapIs(entries: seq<Slot>, m: map<int, Option<Callback>>)
    requires Registered(entries)
    requires forall k :: 0 <= k < |entries| ==> entries[k].fd in m && m[entries[k].fd] == entries[k].cb
    requires forall fd :: fd in m ==> Has(entries, fd)
    ensures AsMap(entries) == m
  {
    AsMapHolds(entries);
    forall fd
      ensures fd in m <==> fd in AsMap(entries)
      ensures fd in m ==> m[fd] == AsMap(entries)[fd]
    {
      if Has(entries, fd) {
        var k :| 0 <= k < |entries| && entries[k].fd == fd;
      }
    }
  }

  /** Removing an entry by moving the last one into its place. */
  function SwapRemove(entries: seq<Slot>, k: nat): seq<Slot>
    requires k < |entries|
  {
    entries[k := entries[|entries| - 1]][..|entries| - 1]
  }

  /** The entry at `j` after the removal is the old one there, or the old last one. */
  lemma SwapRemoveAt(entries: seq<Slot>, k: nat)
    requires k < |entries|
    ensures |SwapRemove(entries, k)| == |entries| - 1
    ensures forall j :: 0 <= j < |entries| - 1 ==>
      SwapRemove(entries, k)[j] == entries[if j == k then |entries| - 1 else j]
  {
  }

  lemma SwapRemoveRegistered(entries: seq<Slot>, k: nat)
    requires Registered(entries) && k < |entries|
    ensures Registered(SwapRemove(entries, k))
  {
    SwapRemoveAt(entries, k);
    hide SwapRemove;
  }

  lemma SwapRemoveHas(entries: seq<Slot>, k: nat, fd: int)
    requires k < |entries| && Has(entries, fd) && fd != entries[k].fd
    ensures Has(SwapRemove(entries, k), fd)
  {
    var j :| 0 <= j < |entries| && entries[j].fd == fd;
    SwapRemoveAt(entries, k);
    hide SwapRemove;
    assert SwapRemove(entries, k)[if j == |entries| - 1 then k else j].fd == fd;
  }

  lemma SwapRemoveKeepsOthers(entries: seq<Slot>, k: nat)
    requires Registered(entries) && k < |entries|
    ensures Registered(SwapRemove(entries, k))
    ensures AsMap(SwapRemove(entries, k)) == AsMap(entries) - {entries[k].fd}
  {
    var r := SwapRemove(entries, k);
    var m := AsMap(entries) - {entries[k].fd};
    SwapRemoveRegistered(entries, k);
    SwapRemoveAt(entries, k);
    AsMapHolds(entries);
    hide SwapRemove, AsMap, Has;
    forall fd | fd in m
      ensures Has(r, fd)
    {
      SwapRemoveHas(entries, k, fd);
    }
    AsMapIs(r, m);
  }

  lemma AppendExtends(entries: seq<Slot>, fd: int, cb: Option<Callback>)
    requires Registered(entries) && |entries| < MAX_WATCHED_FDS && fd >= 0 && !Has(entries, fd)
    ensures Registered(entries + [Slot(fd, cb)])
    ensures AsMap(entries + [Slot(fd, cb)]) == AsMap(entries)[fd := cb]
  {
    var r := entries + [Slot(fd, cb)];
    AppendRegistered(entries, fd, cb);
    hide Registered, Has;
    assert r[..|r| - 1] == entries;
  }

  lemma AppendRegistered(entries: seq<Slot>, fd: int, cb: Option<Callback>)
    requires Registered(entries) && |entries| < MAX_WATCHED_FDS && fd >= 0 && !Has(entries, fd)
    ensures Registered(entries + [Slot(fd, cb)])
  {
    forall k | 0 <= k < |entries|
      ensures entries[k].fd != fd
    {
    }
  }

  // ---------------------------------------------------------------- the array

  class Platform {
    const watched: array<Slot>

    ghost function Entries(): (r: seq<Slot>)
      reads watched
    {
      watched[..Count(watched[..])]
    }

    ghost predicate Valid()
      reads watched
    {
      watched.Length == MAX_WATCHED_FDS && Registered(Entries())
    }

    /** `_watched_fds[MAX_WATCHED_FDS] = {{-1, NULL}}`: only the first slot holds the sentinel. */
    constructor ()
      ensures Valid() && fresh(watched) && Entries() == []
    {
      watched := new Slot[MAX_WATCHED_FDS](k => if k == 0 then Slot(-1, None) else Slot(0, None));
    }

    /** The scan shared by registering and unregistering. */
    method Find(fd: int) returns (idx: nat)
      requires Valid() && fd >= 0
      ensures idx <= |Entries()|
      ensures idx < |Entries()| ==> Entries()[idx].fd == fd
      ensures idx == |Entries()| ==> !Has(Entries(), fd)
      ensures idx == IndexOf(Entries(), fd)
    {
      idx := 0;
      while idx < MAX_WATCHED_FDS && watched[idx].fd != -1 && watched[idx].fd != fd
        invariant idx <= |Entries()|
        invariant forall k :: 0 <= k < idx ==> watched[k].fd != fd
      {
        idx := idx + 1;
      }
    }

    /** `watch_fd_for_input`. */
    method Watch(fd: int, callback: Option<Callback>) returns (ok: bool)
      requires Valid()
      modifies watched
      ensures Valid()
      ensures ok <==> fd >= 0 && !old(Has(Entries(), fd)) && old(|Entries()|) < MAX_WATCHED_FDS
      ensures (Entries(), ok) == Apply(old(Entries()), WatchCall(fd, callback))
    {
      if fd < 0 {
        return false;
      }
      ghost var before := Entries();
      var idx := Find(fd);
      if idx == MAX_WATCHED_FDS || watched[idx].fd == fd {
        return false;
      }
      watched[idx] := Slot(fd, callback);
      if idx + 1 < MAX_WATCHED_FDS {
        watched[idx + 1] := watched[idx + 1].(fd := -1);
      }
      CountIs(watched[..], idx + 1);
      assert Entries() == before + [Slot(fd, callback)];
      AppendExtends(before, fd, callback);
      ok := true;
    }

    /** `unwatch_fd_for_input`. */
    method Unwatch(fd: int) returns (ok: bool)
      requires Valid()
      modifies watched
      ensures Valid()
      ensures ok <==> fd >= 0 && old(Has(Entries(), fd))
      ensures (Entries(), ok) == Apply(old(Entries()), UnwatchCall(fd))
    {
      if fd < 0 {
        return false;
      }
      ghost var before := Entries();
      var idx := Find(fd);
      if idx == MAX_WATCHED_FDS || watched[idx].fd == -1 {
        return false;
      }
      var last := idx;
      while last + 1 < MAX_WATCHED_FDS && watched[last + 1].fd != -1
        invariant idx <= last < |before|
      {
        last := last + 1;
      }
      assert last == |before| - 1;
      hide Registered, AsMap;
      watched[idx] := watched[last];
      watched[last] := Slot(-1, None);
      assert watched[..last] == SwapRemove(before, idx);
      SwapRemoveKeepsOthers(before, idx);
      CountIs(watched[..], last);
      ok := true;
    }

    /** `platform_enter_low_power_ll` with poll's outcome as input: `ready` has the descriptors with
        POLLIN, and `interrupted` stands for an error or a signal. The result lists the entries whose
        callback is called; the callbacks are taken to leave the table alone. */
    method EnterLowPower(ready: set<int>, interrupted: bool) returns (called: seq<Slot>)
      requires Valid()
      ensures called == if interrupted then [] else Dispatched(Entries(), ready)
    {
      called := [];
      if watched[0].fd == -1 {
        return;
      }
      var fds := new int[MAX_WATCHED_FDS](_ => 0);
      var n: nat := 0;
      while n < MAX_WATCHED_FDS && watched[n].fd != -1
        invariant n <= |Entries()|
        invariant forall k :: 0 <= k < n ==> fds[k] == watched[k].fd
        invariant watched[..] == old(watched[..])
      {
        fds[n] := watched[n].fd;
        n := n + 1;
      }
      if interrupted {
        return;
      }
      ghost var entries := Entries();
      assert n == |entries|;
      DispatchedNothing(entries, ready);
      var i: nat := 0;
      while i < n
        invariant i <= n
        invariant forall k :: 0 <= k < n ==> fds[k] == entries[k].fd
        invariant called == Dispatched(entries[..i], ready)
      {
        DispatchedSnoc(entries, i, ready);
        assert entries[i] == watched[i];
        if fds[i] in ready && watched[i].cb.Some? {
          called := called + [watched[i]];
        }
        i := i + 1;
      }
      assert entries[..n] == entries;
    }
  }

  // ---------------------------------------------------------------- dispatch

  /** The entries one poll round serves, in table order. */
  function Dispatched(entries: seq<Slot>, ready: set<int>): seq<Slot> {
    if entries == [] then []
    else if entries[0].fd in ready && entries[0].cb.Some? then [entries[0]] + Dispatched(entries[1..], ready)
    else Dispatched(entries[1..], ready)
  }

  lemma {:induction false} DispatchedSnoc(entries: seq<Slot>, n: nat, ready: set<int>)
    requires n < |entries|
    ensures Dispatched(entries[..n + 1], ready)
         == if entries[n].fd in ready && entries[n].cb.Some? then Dispatched(entries[..n], ready) + [entries[n]]
            else Dispatched(entries[..n], ready)
    decreases n
  {
    if n == 0 {
      assert entries[..1][1..] == [];
    } else {
      assert entries[..n + 1][1..] == entries[1..][..n] && entries[..n][1..] == entries[1..][..n - 1];
      DispatchedSnoc(entries[1..], n - 1, ready);
    }
  }

  lemma DispatchedNothing(entries: seq<Slot>, ready: set<int>)
    ensures entries[..0] == [] && Dispatched([], ready) == []
  {
  }

  /** Every ready entry with a callback is served exactly once, and nothing else is. */
  lemma {:induction false} DispatchedOnce(entries: seq<Slot>, ready: set<int>, e: Slot)
    requires Registered(entries)
    ensures multiset(Dispatched(entries, ready))[e]
         == if e in entries && e.fd in ready && e.cb.Some? then 1 else 0
    decreases |entries|
  {
    if entries != [] {
      DispatchedOnce(entries[1..], ready, e);
      assert entries == [entries[0]] + entries[1..];
      assert e in entries[1..] ==> e != entries[0];
    }
  }

  /** Entries are served in table order. */
  lemma {:induction false} DispatchedInOrder(entries: seq<Slot>, ready: set<int>) returns (at: seq<nat>)
    ensures |at| == |Dispatched(entries, ready)|
    ensures forall k :: 0 <= k < |at| ==> at[k] < |entries| && entries[at[k]] == Dispatched(entries, ready)[k]
    ensures forall j, k :: 0 <= j < k < |at| ==> at[j] < at[k]
    decreases |entries|
  {
    if entries == [] {
      at := [];
    } else {
      var rest := DispatchedInOrder(entries[1..], ready);
      at := OnePlaceOn(entries, rest);
      if entries[0].fd in ready && entries[0].cb.Some? {
        at := [0] + at;
      }
    }
  }

  /** Positions in the tail of a list, as positions in the list. */
  lemma OnePlaceOn(entries: seq<Slot>, rest: seq<nat>) returns (at: seq<nat>)
    requires entries != [] && forall k :: 0 <= k < |rest| ==> rest[k] < |entries| - 1
    ensures |at| == |rest|
    ensures forall k :: 0 <= k < |at| ==> 0 < at[k] < |entries| && entries[at[k]] == entries[1..][rest[k]]
    ensures forall j, k :: 0 <= j < k < |at| && rest[j] < rest[k] ==> at[j] < at[k]
  {
    at := seq(|rest|, k requires 0 <= k < |rest| => rest[k] + 1);
  }

  // ---------------------------------------------------------------- whole runs

  datatype Call = WatchCall(fd: int, cb: Option<Callback>) | UnwatchCall(fd: int)

  function IndexOf(entries: seq<Slot>, fd: int): (k: nat)
    ensures k <= |entries|
    ensures k < |entries| ==> entries[k].fd == fd
    ensures forall j :: 0 <= j < k ==> entries[j].fd != fd
  {
    if entries == [] || entries[0].fd == fd then 0 else 1 + IndexOf(entries[1..], fd)
  }

  /** One call on the list of entries, as the contracts of `Watch` and `Unwatch` describe it. */
  function Apply(entries: seq<Slot>, call: Call): (seq<Slot>, bool) {
    var k := IndexOf(entries, call.fd);
    match call
    case WatchCall(fd, cb) =>
      if fd >= 0 && k == |entries| && |entries| < MAX_WATCHED_FDS then (entries + [Slot(fd, cb)], true)
      else (entries, false)
    case UnwatchCall(fd) =>
      if fd >= 0 && k < |entries| then (SwapRemove(entries, k), true) else (entries, false)
  }

  /** The same call on a plain finite map. */
  ghost function ApplyMap(m: map<int, Option<Callback>>, call: Call): (map<int, Option<Callback>>, bool) {
    match call
    case WatchCall(fd, cb) =>
      if fd >= 0 && fd !in m && |m| < MAX_WATCHED_FDS then (m[fd := cb], true) else (m, false)
    case UnwatchCall(fd) =>
      if fd in m then (m - {fd}, true) else (m, false)
  }

  function Run(calls: seq<Call>): (seq<Slot>, seq<bool>) {
    if calls == [] then ([], [])
    else
      var before := Run(calls[..|calls| - 1]);
      var step := Apply(before.0, calls[|calls| - 1]);
      (step.0, before.1 + [step.1])
  }

  ghost function RunMap(calls: seq<Call>): (map<int, Option<Callback>>, seq<bool>) {
    if calls == [] then (map[], [])
    else
      var before := RunMap(calls[..|calls| - 1]);
      var step := ApplyMap(before.0, calls[|calls| - 1]);
      (step.0, before.1 + [step.1])
  }

  lemma ApplyRefines(entries: seq<Slot>, call: Call)
    requires Registered(entries)
    ensures Registered(Apply(entries, call).0)
    ensures (AsMap(Apply(entries, call).0), Apply(entries, call).1) == ApplyMap(AsMap(entries), call)
  {
    AsMapHolds(entries);
    var k := IndexOf(entries, call.fd);
    assert k < |entries| <==> Has(entries, call.fd);
    assert call.fd in AsMap(entries) <==> Has(entries, call.fd);
    match call
    case WatchCall(fd, cb) =>
      if fd >= 0 && k == |entries| && |entries| < MAX_WATCHED_FDS {
        AppendExtends(entries, fd, cb);
      }
    case UnwatchCall(fd) =>
      if k < |entries| {
        SwapRemoveKeepsOthers(entries, k);
      }
  }

  /** After any sequence of calls the table is the map, and every answer was the map's answer. */
  lemma {:induction false} RunRefines(calls: seq<Call>)
    ensures Registered(Run(calls).0)
    ensures AsMap(Run(calls).0) == RunMap(calls).0 && Run(calls).1 == RunMap(calls).1
    decreases |calls|
  {
    if calls == [] {
      assert AsMap([]) == map[];
    } else {
      RunRefines(calls[..|calls| - 1]);
      ApplyRefines(Run(calls[..|calls| - 1]).0, calls[|calls| - 1]);
    }
  }
}
