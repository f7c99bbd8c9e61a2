/**
 `GET /api/messages/:room`: the store is asked for the room's messages that are not
 of type `"system"`, newest first, at most fifty, and the answer is reversed so the
 client receives them oldest first. The store is a sequence of saved records.
 */
module History {
  import opened Wrappers
  import opened Messages

  /** The `.limit(50)` of the query. */
  const HistoryLimit: nat := 50

  /** The query's filter: the record's `room` is the requested one and its type is not `"system"`. */
  predicate Selected(m: Record, room: string) {
    m.room == Some(room) && m.kind != SystemType
  }

  /** The records the filter lets through, each as often as it is stored. */
  function Matching(store: seq<Record>, room: string): (r: seq<Record>)
    ensures forall m :: m in r ==> Selected(m, room)
    ensures forall m :: Selected(m, room) ==> multiset(r)[m] == multiset(store)[m]
  {
    if |store| == 0 then []
    else
      var rest := Matching(store[1..], room);
      assert store == [store[0]] + store[1..];
      if Selected(store[0], room) then [store[0]] + rest else rest
  }

  predicate NewestFirst(s: seq<Record>) {
    forall i, j :: 0 <= i < j < |s| ==> s[i].timestamp >= s[j].timestamp
  }

  predicate OldestFirst(s: seq<Record>) {
    forall i, j :: 0 <= i < j < |s| ==> s[i].timestamp <= s[j].timestamp
  }

  /** Insert `m` into a newest-first sequence, keeping it newest first. */
  function Insert(m: Record, s: seq<Record>): (r: seq<Record>)
    requires NewestFirst(s)
    ensures NewestFirst(r)
    ensures multiset(r) == multiset(s) + multiset{m}
    ensures |r| == |s| + 1
    ensures |s| > 0 ==> r[0] == m || r[0] == s[0]
  {
    if |s| == 0 then [m]
    else if m.timestamp >= s[0].timestamp then [m] + s
    else
      var rest := Insert(m, s[1..]);
      assert s == [s[0]] + s[1..];
      [s[0]] + rest
  }

  /** `.sort({ timestamp: -1 })`; the order among equal timestamps is left open. */
  function SortNewestFirst(s: seq<Record>): (r: seq<Record>)
    ensures NewestFirst(r)
    ensures multiset(r) == multiset(s)
  {
    if |s| == 0 then []
    else
      assert s == [s[0]] + s[1..];
      Insert(s[0], SortNewestFirst(s[1..]))
  }

  /** `Array.prototype.reverse`. */
  function Reverse(s: seq<Record>): (r: seq<Record>)
    ensures |r| == |s|
    ensures multiset(r) == multiset(s)
  {
    if |s| == 0 then []
    else
      assert s == [s[0]] + s[1..];
      Reverse(s[1..]) + [s[0]]
  }

  /** Position `i` of the reversal is position `|s| - 1 - i` of the original. */
  lemma {:induction false} ReverseAt(s: seq<Record>, i: nat)
    requires i < |s|
    ensures Reverse(s)[i] == s[|s| - 1 - i]
  {
    if i < |s| - 1 {
      ReverseAt(s[1..], i);
    }
  }

  /**
   What any correct answer to the history query is, whatever order the store puts
   equal timestamps in: only records the filter selects, each at most as often as it is
   stored; as many as the filter selects up to the limit; oldest first; and no selected
   record left out is newer than any record returned.
   */
  ghost predicate IsRecentHistory(store: seq<Record>, room: string, r: seq<Record>) {
    var candidates := multiset(Matching(store, room));
    && (forall m :: m in r ==> Selected(m, room))
    && multiset(r) <= candidates
    && |r| == (if |candidates| < HistoryLimit then |candidates| else HistoryLimit)
    && OldestFirst(r)
    && (forall m, k :: m in candidates - multiset(r) && 0 <= k < |r| ==> m.timestamp <= r[k].timestamp)
  }

  lemma ReverseOfNewest(s: seq<Record>)
    requires NewestFirst(s)
    ensures OldestFirst(Reverse(s))
  {
    var r := Reverse(s);
    forall i, j | 0 <= i < j < |r| ensures r[i].timestamp <= r[j].timestamp {
      ReverseAt(s, i);
      ReverseAt(s, j);
    }
  }

  /** Everything after position `n` of a newest-first sequence is no newer than what precedes it. */
  lemma LeftBehindIsOlder(sorted: seq<Record>, n: nat)
    requires NewestFirst(sorted) && n <= |sorted|
    ensures forall m, k :: m in multiset(sorted[n..]) && 0 <= k < n ==> m.timestamp <= sorted[k].timestamp
  {
    forall m: Record, k: int | m in multiset(sorted[n..]) && 0 <= k < n
      ensures m.timestamp <= sorted[k].timestamp
    {
      var p :| 0 <= p < |sorted| - n && sorted[n..][p] == m;
      assert sorted[n + p] == m;
    }
  }

  /**
   Taking the first `n` of a newest-first sequence and reversing it gives `n` records,
   oldest first, none older than any record left behind.
   */
  lemma NewestPrefix(sorted: seq<Record>, n: nat)
    requires NewestFirst(sorted) && n <= |sorted|
    ensures var r := Reverse(sorted[..n]);
      && |r| == n
      && OldestFirst(r)
      && multiset(r) <= multiset(sorted)
      && (forall m, k :: m in multiset(sorted) - multiset(r) && 0 <= k < |r| ==> m.timestamp <= r[k].timestamp)
  {
    var top := sorted[..n];
    var r := Reverse(top);
    SplitAt(sorted, n);
    ReverseOfNewest(top);
    LeftBehindIsOlder(sorted, n);
    forall m: Record, k: int | m in multiset(sorted) - multiset(r) && 0 <= k < |r|
      ensures m.timestamp <= r[k].timestamp
    {
      ReverseAt(top, k);
    }
  }

  lemma SplitAt(s: seq<Record>, n: nat)
    requires n <= |s|
    ensures multiset(s) == multiset(s[..n]) + multiset(s[n..])
  {
    assert s == s[..n] + s[n..];
  }

  lemma SubmultisetSelected(candidates: seq<Record>, r: seq<Record>, room: string)
    requires forall m :: m in candidates ==> Selected(m, room)
    requires multiset(r) <= multiset(candidates)
    ensures forall m :: m in r ==> Selected(m, room)
  {
    forall m | m in r ensures Selected(m, room) {
      assert m in multiset(r);
    }
  }

  /** The query: filter, newest first, the first fifty, then reversed. */
  function RecentHistory(store: seq<Record>, room: string): (r: seq<Record>)
    ensures IsRecentHistory(store, room, r)
  {
    var candidates := Matching(store, room);
    var sorted := SortNewestFirst(candidates);
    var n := if |sorted| < HistoryLimit then |sorted| else HistoryLimit;
    NewestPrefix(sorted, n);
    var r := Reverse(sorted[..n]);
    SubmultisetSelected(candidates, r, room);
    r
  }

  /** When the room has at most fifty selected records, the query returns every one of them. */
  lemma ShortHistoryIsComplete(store: seq<Record>, room: string)
    requires |Matching(store, room)| <= HistoryLimit
    ensures multiset(RecentHistory(store, room)) == multiset(Matching(store, room))
  {
    var r := RecentHistory(store, room);
    var c := multiset(Matching(store, room));
    assert multiset(r) <= c && |multiset(r)| == |c|;
    SameSizeSubmultiset(multiset(r), c);
  }

  /** A sub-multiset as large as the whole is the whole. */
  lemma SameSizeSubmultiset(a: multiset<Record>, b: multiset<Record>)
    requires a <= b && |a| == |b|
    ensures a == b
  {
    assert |b - a| == |b| - |a|;
  }
}
