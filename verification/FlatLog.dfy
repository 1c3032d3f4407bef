/** A topic's log as the concatenation of its segments, and what a read across segments gives. */
module FlatLog {
  import opened Bytes
  import opened LogRecord
  import opened LogSegment

  function Joined(parts: seq<seq<Record>>): seq<Record> {
    if parts == [] then [] else parts[0] + Joined(parts[1..])
  }

  /** Segments with rising bases, each holding records from its base up to the next segment's base. */
  ghost predicate Layout(segments: seq<int>, parts: seq<seq<Record>>) {
    && |segments| == |parts| > 0
    && Ascending(segments)
    && forall i {:trigger PartFits(segments, parts, i)} :: 0 <= i < |parts| ==> PartFits(segments, parts, i)
  }

  ghost predicate PartFits(segments: seq<int>, parts: seq<seq<Record>>, i: nat)
    requires |segments| == |parts| && i < |parts|
  {
    Orderly(parts[i], segments[i]) && (i + 1 < |segments| ==> Below(parts[i], segments[i + 1]))
  }

  ghost predicate Ascending(segments: seq<int>) {
    forall i, j :: 0 <= i < j < |segments| ==> segments[i] < segments[j]
  }

  ghost predicate Below(rs: seq<Record>, t: int) {
    forall k {:trigger rs[k].offset} :: 0 <= k < |rs| ==> rs[k].offset < t
  }

  ghost predicate AtOrAbove(rs: seq<Record>, t: int) {
    forall k {:trigger rs[k].offset} :: 0 <= k < |rs| ==> t <= rs[k].offset
  }

  lemma LayoutRolls(segments: seq<int>, parts: seq<seq<Record>>, offset: int)
    requires Layout(segments, parts)
    requires segments[|segments| - 1] < offset && Below(parts[|parts| - 1], offset)
    ensures Layout(segments + [offset], parts + [[]])
  {
    forall i | 0 <= i <= |parts|
      ensures PartFits(segments + [offset], parts + [[]], i)
    {
      assert i < |parts| ==> PartFits(segments, parts, i);
    }
  }

  lemma LayoutAppends(segments: seq<int>, parts: seq<seq<Record>>, rs: seq<Record>)
    requires Layout(segments, parts) && Orderly(rs, segments[|segments| - 1])
    ensures Layout(segments, parts[|parts| - 1 := rs])
  {
    var all := parts[|parts| - 1 := rs];
    forall i | 0 <= i < |parts|
      ensures PartFits(segments, all, i)
    {
      assert PartFits(segments, parts, i);
    }
  }

  lemma GrowsBelow(rs: seq<Record>, log: Record, grown: seq<Record>)
    requires Below(rs, log.offset) && (grown == rs + [] || grown == rs + [log])
    ensures Below(grown, log.offset + 1)
    ensures rs != [] ==> rs[|rs| - 1].offset < log.offset
  {
    forall k | 0 <= k < |grown|
      ensures grown[k].offset < log.offset + 1
    {
      assert k < |rs| ==> grown[k].offset == rs[k].offset;
    }
  }

  lemma LayoutTail(segments: seq<int>, parts: seq<seq<Record>>, n: nat)
    requires Layout(segments, parts) && n < |parts|
    ensures Layout(segments[n..], parts[n..])
  {
    forall i | 0 <= i < |parts| - n
      ensures PartFits(segments[n..], parts[n..], i)
    {
      assert PartFits(segments, parts, n + i);
    }
  }

  /** The segment `baseOffset` picks: the first whose closed interval up to the next base holds the target. */
  ghost predicate IsChosen(segments: seq<int>, t: int, i: nat) {
    && i < |segments| && Covers(segments, t, i)
    && forall k :: 0 <= k < i ==> !Covers(segments, t, k)
  }

  predicate Covers(segments: seq<int>, t: int, i: nat)
    requires i < |segments|
  {
    segments[i] <= t && (i + 1 < |segments| ==> t <= segments[i + 1])
  }

  /** The first segment from `k` on that covers the target; the last one when none does. */
  function Chosen(segments: seq<int>, t: int, k: nat): (i: nat)
    requires k < |segments|
    ensures i < |segments|
    decreases |segments| - k
  {
    if Covers(segments, t, k) || k + 1 == |segments| then k else Chosen(segments, t, k + 1)
  }

  lemma {:induction false} ChosenIs(segments: seq<int>, t: int, i: nat, k: nat)
    requires IsChosen(segments, t, i) && k <= i
    ensures Chosen(segments, t, k) == i
    decreases i - k
  {
    if k < i {
      ChosenIs(segments, t, i, k + 1);
    }
  }

  /** Every target from the first base on is covered. */
  lemma {:induction false} SomeCovers(segments: seq<int>, t: int, n: nat) returns (i: nat)
    requires n < |segments| && segments[n] <= t
    ensures i < |segments| && Covers(segments, t, i)
    decreases |segments| - n
  {
    if n + 1 < |segments| && segments[n + 1] <= t {
      i := SomeCovers(segments, t, n + 1);
    } else {
      i := n;
    }
  }

  // ---------- flat reading ----------

  lemma FromBelow(rs: seq<Record>, t: int)
    requires Below(rs, t)
    ensures From(rs, t) == []
  {
    FromIs(rs, t, |rs|);
  }

  lemma FromAbove(rs: seq<Record>, t: int)
    requires AtOrAbove(rs, t)
    ensures From(rs, t) == rs
  {
    FromIs(rs, t, 0);
  }

  lemma {:induction false} JoinedAbove(segments: seq<int>, parts: seq<seq<Record>>, t: int)
    requires parts != [] ==> Layout(segments, parts) && t <= segments[0]
    ensures AtOrAbove(Joined(parts), t)
  {
    if parts != [] {
      assert PartFits(segments, parts, 0);
      if |parts| > 1 {
        LayoutTail(segments, parts, 1);
      }
      JoinedAbove(segments[1..], parts[1..], t);
      OrderlyAll(parts[0], segments[0]);
      var all, rest := Joined(parts), Joined(parts[1..]);
      forall k | 0 <= k < |all|
        ensures t <= all[k].offset
      {
        if k >= |parts[0]| {
          assert all[k].offset == rest[k - |parts[0]|].offset;
        } else {
          assert all[k].offset == parts[0][k].offset;
        }
      }
    }
  }

  /** The simple reading from `t` on starts in the chosen segment and goes on through all later ones. */
  lemma {:induction false} FlatFrom(segments: seq<int>, parts: seq<seq<Record>>, t: int, i: nat)
    requires Layout(segments, parts) && i < |segments| && Covers(segments, t, i)
    ensures From(Joined(parts), t) == From(parts[i], t) + Joined(parts[i + 1..])
    decreases i
  {
    var rest := Joined(parts[1..]);
    assert PartFits(segments, parts, 0);
    if |parts| > 1 {
      LayoutTail(segments, parts, 1);
    }
    if i > 0 {
      assert segments[1] <= segments[i];
      FromBelow(parts[0], t);
      FlatFrom(segments[1..], parts[1..], t, i - 1);
      assert parts[1..][i - 1 + 1..] == parts[i + 1..];
      FromConcat(parts[0], rest, t);
    } else {
      JoinedAbove(segments[1..], parts[1..], t);
      FromAbove(rest, t);
      FromConcat(parts[0], rest, t);
      assert From(parts[0], t) == [] ==> [] + rest == rest;
    }
  }

  /** What a topic read gives out of the chosen segment `i`, before the limit. */
  ghost function Given(segments: seq<int>, parts: seq<seq<Record>>, i: nat, key: bool, t: int): seq<Record>
    requires |segments| == |parts| && i < |parts|
  {
    Selected(parts[i], segments[i], key, t) + Joined(parts[i + 1..])
  }

  /**
   A topic read gives the first `limit` records of the flat log from `t` on exactly when `t` is no
   index key of the chosen segment and does not fall between two of its records.
   */
  lemma ReadIsFlat(segments: seq<int>, parts: seq<seq<Record>>, cuts: set<nat>, t: int, i: nat, key: bool, limit: nat)
    requires Layout(segments, parts) && IsChosen(segments, t, i) && |Flat(parts[i])| < TWO32
    requires key == IsKey(Sparse(parts[i], segments[i], cuts), segments[i], t)
    ensures Take(Given(segments, parts, i, key, t), limit) == Take(From(Joined(parts), t), limit)
       <==> limit == 0 || (!key && (t == segments[i] || Stored(parts[i], t) || From(parts[i], t) == []))
  {
    var rs, base, rest := parts[i], segments[i], Joined(parts[i + 1..]);
    FlatFrom(segments, parts, t, i);
    assert PartFits(segments, parts, i);
    SelectedIsFrom(rs, base, cuts, t);
    var got, want := Selected(rs, base, key, t), From(rs, t);
    if got != want && limit > 0 {
      FirstDiffers(rs, base, cuts, t);
      JoinedLater(segments, parts, i);
      var g, w := got + rest, want + rest;
      assert w[0] == want[0];
      if |g| > 0 {
        assert g[0] == if got != [] then got[0] else rest[0];
        assert g[0].offset != w[0].offset;
        assert Take(g, limit)[0] == g[0] && Take(w, limit)[0] == w[0];
      }
    }
  }

  lemma TakeDatas(rs: seq<Record>, n: nat)
    ensures Datas(Take(rs, n)) == Take(Datas(rs), n)
  {
  }

  /** Then the data handed out is the data of the flat log. */
  lemma ReadDataIsFlat(segments: seq<int>, parts: seq<seq<Record>>, cuts: set<nat>, t: int, i: nat, key: bool,
                       limit: nat)
    requires Layout(segments, parts) && IsChosen(segments, t, i) && |Flat(parts[i])| < TWO32
    requires key == IsKey(Sparse(parts[i], segments[i], cuts), segments[i], t)
    requires !key && (t == segments[i] || Stored(parts[i], t) || From(parts[i], t) == [])
    ensures Take(Datas(Given(segments, parts, i, key, t)), limit) == Take(Datas(From(Joined(parts), t)), limit)
  {
    ReadIsFlat(segments, parts, cuts, t, i, key, limit);
    TakeDatas(Given(segments, parts, i, key, t), limit);
    TakeDatas(From(Joined(parts), t), limit);
  }

  /** Where a segment's read is not the plain one, it misses the first record it should give. */
  lemma FirstDiffers(rs: seq<Record>, base: int, cuts: set<nat>, t: int)
    requires Orderly(rs, base) && |Flat(rs)| < TWO32 && t >= base
    requires Selected(rs, base, IsKey(Sparse(rs, base, cuts), base, t), t) != From(rs, t)
    ensures From(rs, t) != [] && From(rs, t)[0] in rs
    ensures var got := Selected(rs, base, IsKey(Sparse(rs, base, cuts), base, t), t);
            got != [] ==> got[0].offset > From(rs, t)[0].offset
  {
    OrderlyAll(rs, base);
    SelectedIsFrom(rs, base, cuts, t);
    var k := FromCut(rs, t);
    if IsKey(Sparse(rs, base, cuts), base, t) {
      var m := KeyIsStored(rs, base, cuts, t);
      var k' := FromCut(rs, t + 1);
      assert rs[m].offset >= t && !(rs[m].offset >= t + 1);
      assert rs[k] in rs && rs[k].offset <= rs[m].offset;
      if k' < |rs| {
        assert rs[k'].offset >= t + 1;
      }
    } else {
      assert rs[k] in rs;
    }
  }

  lemma JoinedLater(segments: seq<int>, parts: seq<seq<Record>>, i: nat)
    requires Layout(segments, parts) && i < |parts|
    ensures forall r :: r in parts[i] && Joined(parts[i + 1..]) != [] ==> r.offset < Joined(parts[i + 1..])[0].offset
  {
    if i + 1 < |parts| {
      LayoutTail(segments, parts, i + 1);
      JoinedAbove(segments[i + 1..], parts[i + 1..], segments[i + 1]);
      assert PartFits(segments, parts, i);
      forall r | r in parts[i]
        ensures r.offset < segments[i + 1]
      {
        var k :| 0 <= k < |parts[i]| && parts[i][k] == r;
        assert parts[i][k].offset < segments[i + 1];
      }
      if Joined(parts[i + 1..]) != [] {
        assert segments[i + 1] <= Joined(parts[i + 1..])[0].offset;
      }
    }
  }

  ghost predicate Dense(rs: seq<Record>) {
    forall k {:trigger rs[k].offset} :: 0 <= k < |rs| ==> rs[k].offset == k + 1
  }

  lemma DenseGrows(rs: seq<Record>, log: Record)
    requires Dense(rs) && log.offset == |rs| + 1
    ensures Dense(rs + [log])
  {
  }

  lemma DenseFrom(rs: seq<Record>, t: int)
    requires Dense(rs) && 1 <= t <= |rs| + 1
    ensures From(rs, t) == rs[t - 1..]
  {
    FromIs(rs, t, t - 1);
  }

  /** On a log numbered 1, 2, ..., n every number up to n is stored where it is looked for, or in the next segment. */
  lemma DenseStored(segments: seq<int>, parts: seq<seq<Record>>, t: int, i: nat)
    requires Layout(segments, parts) && Dense(Joined(parts)) && IsChosen(segments, t, i) && 1 <= t
    ensures Stored(parts[i], t) || From(parts[i], t) == []
  {
    var all, own := Joined(parts), From(parts[i], t);
    FlatFrom(segments, parts, t, i);
    if own != [] {
      if t <= |all| {
        DenseFrom(all, t);
        assert own[0] == all[t - 1];
      } else {
        FromIs(all, t, |all|);
      }
      assert PartFits(segments, parts, i);
      OrderlyAll(parts[i], segments[i]);
      var k := FromCut(parts[i], t);
      assert parts[i][k].offset == t;
    }
  }

  /**
   What a read from the number `t` gives on a log numbered 1, 2, ..., n, before the limit: everything from that number
   on, or for an index key everything behind it.
   */
  lemma DenseRead(segments: seq<int>, parts: seq<seq<Record>>, cuts: set<nat>, t: int, i: nat, key: bool)
    requires Layout(segments, parts) && Dense(Joined(parts)) && IsChosen(segments, t, i) && 1 <= t
    requires |Flat(parts[i])| < TWO32 && key == IsKey(Sparse(parts[i], segments[i], cuts), segments[i], t)
    ensures key ==> t <= |Joined(parts)|
    ensures Given(segments, parts, i, key, t)
         == if t > |Joined(parts)| then [] else Joined(parts)[if key then t else t - 1..]
  {
    assert PartFits(segments, parts, i);
    if key {
      DenseKey(segments, parts, cuts, t, i);
    } else {
      DenseStored(segments, parts, t, i);
      FlatFrom(segments, parts, t, i);
      DenseTail(Joined(parts), t);
      SelectedIsFrom(parts[i], segments[i], cuts, t);
    }
  }

  lemma DenseTail(rs: seq<Record>, t: int)
    requires Dense(rs) && 1 <= t
    ensures From(rs, t) == if t > |rs| then [] else rs[t - 1..]
  {
    if t <= |rs| {
      DenseFrom(rs, t);
    } else {
      FromIs(rs, t, |rs|);
    }
  }

  /** An index key is the number of a record of the chosen segment, and the records behind it are read. */
  lemma DenseKey(segments: seq<int>, parts: seq<seq<Record>>, cuts: set<nat>, t: int, i: nat)
    requires Layout(segments, parts) && Dense(Joined(parts)) && IsChosen(segments, t, i) && 1 <= t
    requires Orderly(parts[i], segments[i]) && |Flat(parts[i])| < TWO32
    requires IsKey(Sparse(parts[i], segments[i], cuts), segments[i], t)
    ensures t <= |Joined(parts)| && Given(segments, parts, i, true, t) == Joined(parts)[t..]
  {
    var all := Joined(parts);
    assert PartFits(segments, parts, i);
    var m := KeyIsStored(parts[i], segments[i], cuts, t);
    OrderlyAll(parts[i], segments[i]);
    FlatFrom(segments, parts, t, i);
    FromNotEmpty(parts[i], t, m);
    DenseTail(all, t);
    FlatFrom(segments, parts, t + 1, i);
    DenseTail(all, t + 1);
  }

  lemma FromNotEmpty(rs: seq<Record>, t: int, m: nat)
    requires Increasing(rs) && m < |rs| && rs[m].offset >= t
    ensures From(rs, t) != []
  {
    var k := FromCut(rs, t);
  }

  /**
   Reading the last `limit` of a log numbered 1, 2, ..., n from the number n - limit + 1 on gives them,
   exactly unless that number is an index key.
   */
  lemma LastRead(segments: seq<int>, parts: seq<seq<Record>>, cuts: set<nat>, i: nat, key: bool, limit: nat)
    requires Layout(segments, parts) && Dense(Joined(parts)) && 0 < limit <= |Joined(parts)|
    requires IsChosen(segments, |Joined(parts)| - limit + 1, i) && |Flat(parts[i])| < TWO32
    requires key == IsKey(Sparse(parts[i], segments[i], cuts), segments[i], |Joined(parts)| - limit + 1)
    ensures Take(Given(segments, parts, i, key, |Joined(parts)| - limit + 1), limit)
            == Joined(parts)[|Joined(parts)| - limit..]
       <==> !key
  {
    DenseRead(segments, parts, cuts, |Joined(parts)| - limit + 1, i, key);
  }

  /** Asking for more than there is reads from 0, which is the first base, and gives everything. */
  lemma WholeRead(segments: seq<int>, parts: seq<seq<Record>>, i: nat, key: bool, count: nat)
    requires Layout(segments, parts) && segments[0] == 0 && IsChosen(segments, 0, i) && |Flat(parts[i])| < TWO32
    requires key == IsKey(Sparse(parts[i], segments[i], {}), segments[i], 0)
    requires count >= |Joined(parts)|
    ensures Given(segments, parts, i, key, 0) == Take(Given(segments, parts, i, key, 0), count) == Joined(parts)
  {
    assert Covers(segments, 0, 0);
    assert i == 0;
    assert PartFits(segments, parts, 0);
    if key {
      var m := KeyIsStored(parts[0], 0, {}, 0);
    }
  }

  /**
   Where the last `limit` records of a log begin, or all of them; one later when the number read from is an index key.
   */
  function FirstOfLast(last: nat, limit: nat, key: bool): (k: nat)
    ensures k <= last
  {
    if limit > last then 0 else if limit > 0 && key then last - limit + 1 else last - limit
  }

  /** The data a read of the last `limit` records gives on a log numbered 1, 2, ..., `last`. */
  lemma LastDatas(segments: seq<int>, parts: seq<seq<Record>>, i: nat, key: bool, last: nat, limit: nat, start: nat,
                  count: nat)
    requires Layout(segments, parts) && segments[0] == 0 && Dense(Joined(parts)) && last == |Joined(parts)|
    requires start == (if last < limit then 0 else last - limit + 1)
             && count == (if last < limit then last + 1 else limit)
    requires IsChosen(segments, start, i) && |Flat(parts[i])| < TWO32
    requires key == IsKey(Sparse(parts[i], segments[i], {}), segments[i], start)
    ensures Take(Datas(Given(segments, parts, i, key, start)), count)
            == Datas(Joined(parts)[FirstOfLast(last, limit, key)..])
  {
    var all, given := Joined(parts), Given(segments, parts, i, key, start);
    TakeDatas(given, count);
    if last < limit {
      WholeRead(segments, parts, i, key, count);
      assert given == all[0..];
    } else {
      DenseRead(segments, parts, {}, start, i, key);
      assert given == all[FirstOfLast(last, limit, key)..];
    }
  }

  /** Reading no further than the chosen segment is right exactly if it holds enough, or nothing stands behind it. */
  lemma FirstSegmentOnly(sel: seq<Record>, later: seq<Record>, limit: nat)
    ensures Take(Datas(sel), limit) == Take(Datas(sel + later), limit) <==> later == [] || |sel| >= limit
  {
    DatasConcat(sel, later);
    if later == [] {
      assert sel + later == sel;
    }
    assert |Take(Datas(sel), limit)| == if limit < |sel| then limit else |sel|;
    assert |Take(Datas(sel + later), limit)| == if limit < |sel| + |later| then limit else |sel| + |later|;
  }

  // ---------- collecting data across segments ----------

  lemma DatasConcat(xs: seq<Record>, ys: seq<Record>)
    ensures Datas(xs + ys) == Datas(xs) + Datas(ys)
  {
  }

  lemma FirstAndRest<T>(was: seq<T>, datas: seq<T>)
    requires datas != []
    ensures was + [datas[0]] + datas[1..] == was + datas
  {
    assert datas == [datas[0]] + datas[1..];
  }

  lemma TakeMore<T>(xs: seq<T>, ys: seq<T>, n: nat)
    ensures |Take(xs, n)| < n ==> Take(xs, n) == xs && Take(xs + ys, n) == xs + Take(ys, n - |xs|)
    ensures |Take(xs, n)| >= n ==> Take(xs + ys, n) == Take(xs, n)
  {
  }

  lemma {:induction false} JoinedSnoc(parts: seq<seq<Record>>, p: seq<Record>)
    ensures Joined(parts + [p]) == Joined(parts) + p
  {
    if parts == [] {
      assert Joined([p]) == p + [] == p;
      assert parts + [p] == [p];
    } else {
      assert (parts + [p])[1..] == parts[1..] + [p];
      JoinedSnoc(parts[1..], p);
    }
  }

  lemma JoinedRolls(parts: seq<seq<Record>>)
    ensures Joined(parts + [[]]) == Joined(parts)
  {
    JoinedSnoc(parts, []);
  }

  lemma JoinedGrows(parts: seq<seq<Record>>, n: nat, grown: seq<Record>)
    requires |parts| == n + 1 && parts[n] <= grown
    ensures Joined(parts[n := grown]) == Joined(parts) + grown[|parts[n]|..]
  {
    var init, last := parts[..n], parts[n];
    assert parts == init + [last];
    assert parts[n := grown] == init + [grown];
    JoinedSnoc(init, last);
    JoinedSnoc(init, grown);
    assert grown == last + grown[|last|..];
    assert Joined(init) + grown == Joined(init) + last + grown[|last|..];
  }

  /** The last part grows by a record behind it, or not at all. */
  lemma LastGrows(segments: seq<int>, parts: seq<seq<Record>>, n: nat, log: Record, more: seq<Record>)
    requires Layout(segments, parts) && |parts| == n + 1 && Below(parts[n], log.offset) && (more == [] || more == [log])
    requires Orderly(parts[n] + more, segments[n])
    ensures Layout(segments, parts[n := parts[n] + more]) && Below(parts[n] + more, log.offset + 1)
    ensures Joined(parts[n := parts[n] + more]) == Joined(parts) + more
  {
    GrowsBelow(parts[n], log, parts[n] + more);
    JoinedGrows(parts, n, parts[n] + more);
    LayoutAppends(segments, parts, parts[n] + more);
  }

  /** What has been collected when the segments up to `at` have been read. */
  ghost function Through(sel: seq<Record>, parts: seq<seq<Record>>, i: nat, at: nat): seq<Record>
    requires i <= at < |parts|
  {
    sel + Joined(parts[i + 1..at + 1])
  }

  lemma SliceSnoc<T>(s: seq<T>, lo: nat, hi: nat)
    requires lo <= hi < |s|
    ensures s[lo..hi] + [s[hi]] == s[lo..hi + 1]
  {
  }

  lemma CollectNext(sel: seq<Record>, parts: seq<seq<Record>>, i: nat, at: nat, limit: nat)
    requires i <= at < |parts| - 1
    ensures var read := Take(Datas(Through(sel, parts, i, at)), limit);
            |read| < limit ==>
              Take(Datas(Through(sel, parts, i, at + 1)), limit) == read + Take(Datas(parts[at + 1]), limit - |read|)
  {
    var xs, ys := Through(sel, parts, i, at), parts[at + 1];
    JoinedSnoc(parts[i + 1..at + 1], ys);
    SliceSnoc(parts, i + 1, at + 1);
    assert xs + ys == Through(sel, parts, i, at + 1);
    DatasConcat(xs, ys);
    TakeMore(Datas(xs), Datas(ys), limit);
  }

  /** What one more segment hands out behind what has been handed out. */
  lemma HandsOutNext(sel: seq<Record>, parts: seq<seq<Record>>, i: nat, at: nat, limit: nat, accepts: seq<byte> -> bool,
                     read: seq<seq<byte>>, rest: Reads)
    requires i <= at < |parts| - 1 && |read| < limit && AllAccepted(read, accepts)
    requires read == Take(Datas(Through(sel, parts, i, at)), limit)
    requires rest == HandedOut(Take(Datas(parts[at + 1]), limit - |read|), accepts)
    ensures Behind(read, rest) == HandedOut(Take(Datas(Through(sel, parts, i, at + 1)), limit), accepts)
  {
    CollectNext(sel, parts, i, at, limit);
    HandsOutBehind(read, Take(Datas(parts[at + 1]), limit - |read|), accepts);
  }

  /** What is collected on the way is the beginning of what there is to collect. */
  lemma CollectPrefix(sel: seq<Record>, parts: seq<seq<Record>>, i: nat, at: nat, limit: nat)
    requires i <= at < |parts|
    ensures Take(Datas(Through(sel, parts, i, at)), limit) <= Take(Datas(sel + Joined(parts[i + 1..])), limit)
  {
    var head, tail := parts[i + 1..at + 1], parts[at + 1..];
    assert parts[i + 1..] == head + tail;
    CollectParts(sel, head, tail, limit);
  }

  lemma CollectParts(sel: seq<Record>, head: seq<seq<Record>>, tail: seq<seq<Record>>, limit: nat)
    ensures Take(Datas(sel + Joined(head)), limit) <= Take(Datas(sel + Joined(head + tail)), limit)
  {
    var xs, ys := sel + Joined(head), Joined(tail);
    JoinedConcat(head, tail);
    assert sel + (Joined(head) + ys) == xs + ys;
    DatasConcat(xs, ys);
    TakePrefix(Datas(xs), Datas(ys), limit);
  }

  lemma TakePrefix<T>(xs: seq<T>, ys: seq<T>, n: nat)
    ensures Take(xs, n) <= Take(xs + ys, n)
  {
  }

  lemma CollectDone(sel: seq<Record>, parts: seq<seq<Record>>, i: nat, at: nat, limit: nat)
    requires i <= at < |parts|
    requires |Take(Datas(Through(sel, parts, i, at)), limit)| >= limit || at == |parts| - 1
    ensures Take(Datas(Through(sel, parts, i, at)), limit) == Take(Datas(sel + Joined(parts[i + 1..])), limit)
  {
    CollectPrefix(sel, parts, i, at, limit);
    if at == |parts| - 1 {
      assert parts[i + 1..at + 1] == parts[i + 1..];
    }
  }

  lemma {:induction false} JoinedConcat(xs: seq<seq<Record>>, ys: seq<seq<Record>>)
    ensures Joined(xs + ys) == Joined(xs) + Joined(ys)
  {
    if xs == [] {
      assert xs + ys == ys;
    } else {
      assert (xs + ys)[1..] == xs[1..] + ys;
      JoinedConcat(xs[1..], ys);
    }
  }
}
