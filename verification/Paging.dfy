/** A page of a channel's messages, of which the log holds the numbers from 1 on. */
module Paging {
  import opened Bytes
  import opened LogRecord
  import opened LogSegment
  import opened FlatLog

  /** The numbers from `lo` to `hi`. */
  function Range(lo: int, hi: int): (r: seq<int>)
    ensures |r| == if lo <= hi then hi - lo + 1 else 0
  {
    seq(if lo <= hi then hi - lo + 1 else 0, i => lo + i)
  }

  lemma SameRange(a: int, b: int, c: int, d: int)
    ensures Range(a, b) == Range(c, d) <==> (a == c && b == d) || (a > b && c > d)
  {
    var r, s := Range(a, b), Range(c, d);
    if |r| == |s| > 0 {
      assert r[0] == a && s[0] == c;
    }
  }

  function Min(a: int, b: int): int {
    if a < b then a else b
  }

  /** The first number read: from 0 it is 1, and for an index key the number behind it. */
  function FirstRead(start: u32, key: bool): nat {
    if start == 0 then 1 else if key then start + 1 else start
  }

  /** The numbers a log numbered from 1 to `last` gives from a number on: at most `limit`. */
  function GetMessages(last: u32, start: u32, limit: u64, key: bool): seq<int> {
    var first := FirstRead(start, key);
    Range(first, Min(last, first + limit - 1))
  }

  function Numbers(rs: seq<Record>): (ns: seq<int>)
    ensures |ns| == |rs|
  {
    seq(|rs|, k requires 0 <= k < |rs| => rs[k].offset)
  }

  lemma GivesFrom(segments: seq<int>, parts: seq<seq<Record>>, i: nat, key: bool, start: u32)
    requires Layout(segments, parts) && segments[0] == 0 && Dense(Joined(parts))
    requires IsChosen(segments, start, i) && |Flat(parts[i])| < TWO32
    requires key == IsKey(Sparse(parts[i], segments[i], {}), segments[i], start)
    ensures var first := FirstRead(start, key);
            Given(segments, parts, i, key, start) == if first > |Joined(parts)| then [] else Joined(parts)[first - 1..]
  {
    if start == 0 {
      WholeRead(segments, parts, i, key, |Joined(parts)|);
      assert Joined(parts)[0..] == Joined(parts);
    } else {
      DenseRead(segments, parts, {}, start, i, key);
    }
  }

  /**
   That is what reading the topic gives, `key` telling whether the number read from is an index key of its segment.
   */
  lemma LogGives(segments: seq<int>, parts: seq<seq<Record>>, i: nat, key: bool, start: u32, limit: u64)
    requires Layout(segments, parts) && segments[0] == 0 && Dense(Joined(parts)) && |Joined(parts)| < 0x1_0000_0000
    requires IsChosen(segments, start, i) && |Flat(parts[i])| < TWO32
    requires key == IsKey(Sparse(parts[i], segments[i], {}), segments[i], start)
    ensures Numbers(Take(Given(segments, parts, i, key, start), limit))
            == GetMessages(|Joined(parts)|, start, limit, key)
  {
    GivesFrom(segments, parts, i, key, start);
    TakenNumbers(Joined(parts), Given(segments, parts, i, key, start), FirstRead(start, key), limit);
  }

  lemma TakenNumbers(all: seq<Record>, given: seq<Record>, first: nat, limit: nat)
    requires Dense(all) && first >= 1 && given == if first > |all| then [] else all[first - 1..]
    ensures Numbers(Take(given, limit)) == Range(first, Min(|all|, first + limit - 1))
  {
    var got := Take(given, limit);
    forall k | 0 <= k < |got|
      ensures Numbers(got)[k] == first + k
    {
      assert got[k] == all[first - 1 + k];
      assert all[first - 1 + k].offset == first + k;
    }
  }

  /** The last number in the open window above `offset` and, if `end` is not 0, below `end`. */
  function WindowEnd(last: u32, end: u32): int {
    if end == 0 then last else Min(last, end - 1)
  }

  function Below(ms: seq<int>, end: u32): seq<int> {
    if ms == [] then []
    else
      var init := Below(ms[..|ms| - 1], end);
      if end == 0 || ms[|ms| - 1] < end then init + [ms[|ms| - 1]] else init
  }

  lemma {:induction false} BelowRange(lo: int, hi: int, end: u32)
    ensures Below(Range(lo, hi), end) == Range(lo, if end == 0 then hi else Min(hi, end - 1))
    decreases hi - lo
  {
    if lo <= hi {
      assert Range(lo, hi)[..hi - lo] == Range(lo, hi - 1);
      BelowRange(lo, hi - 1, end);
    }
  }

  /** The number above the offset, as a 32-bit number. */
  function StartOf(offset: u32): u32 {
    if offset == 0xFFFF_FFFF then 0 else offset + 1
  }

  function Limited(offset: u32, limit: u64, end: u32): u64 {
    if end != 0 && end > offset && end - offset <= limit then end - offset else limit
  }

  /** The upward page of `GetMessagesWithOptions`. */
  method Upward(last: u32, offset: u32, limit: u64, end: u32, key: bool) returns (page: seq<int>)
    ensures page == Below(GetMessages(last, StartOf(offset), Limited(offset, limit, end), key), end)
  {
    var actLimit := limit;
    if end != 0 && end > offset {
      actLimit := end - offset;
      if actLimit > limit {
        actLimit := limit;
      }
    }
    var messages := GetMessages(last, StartOf(offset), actLimit, key);
    page := [];
    var i := 0;
    while i < |messages|
      invariant i <= |messages| && page == Below(messages[..i], end)
    {
      assert messages[..i + 1][..i] == messages[..i];
      if end == 0 || messages[i] < end {
        page := page + [messages[i]];
      }
      i := i + 1;
    }
    assert messages[..i] == messages;
  }

  function PageEnd(last: u32, first: nat, n: u64, end: u32): int {
    var hi := Min(last, first + n - 1);
    if end == 0 then hi else Min(hi, end - 1)
  }

  lemma WindowBounds(last: u32, offset: u32, limit: u64, end: u32)
    requires offset < 0xFFFF_FFFF
    ensures var hi := PageEnd(last, offset + 1, Limited(offset, limit, end), end);
            var to := Min(WindowEnd(last, end), offset + limit);
            hi == to || (hi < offset + 1 && to < offset + 1)
    ensures limit == 0 || WindowEnd(last, end) <= offset ==>
            PageEnd(last, offset + 2, Limited(offset, limit, end), end) < offset + 2
  {
  }

  lemma WrappedBounds(last: u32, limit: u64, end: u32)
    ensures PageEnd(last, 1, Limited(0xFFFF_FFFF, limit, end), end) < 1 <==> last == 0 || limit == 0 || end == 1
    ensures WindowEnd(last, end) < 0x1_0000_0000
  {
  }

  /**
   The page is the first `limit` messages of the window exactly if the number above the offset is no index key, or the
   window or the limit is empty. At the largest offset the start wraps to 0 and the page is taken from the beginning of
   the log, which is wrong unless nothing is found there.
   */
  lemma PageIsWindow(last: u32, offset: u32, limit: u64, end: u32, key: bool)
    ensures Below(GetMessages(last, StartOf(offset), Limited(offset, limit, end), key), end)
         == Range(offset + 1, Min(WindowEnd(last, end), offset + limit))
       <==> if offset < 0xFFFF_FFFF then !key || limit == 0 || WindowEnd(last, end) <= offset
            else last == 0 || limit == 0 || end == 1
  {
    var n := Limited(offset, limit, end);
    var first := FirstRead(StartOf(offset), key);
    BelowRange(first, Min(last, first + n - 1), end);
    SameRange(first, PageEnd(last, first, n, end), offset + 1, Min(WindowEnd(last, end), offset + limit));
    if offset == 0xFFFF_FFFF {
      WrappedBounds(last, limit, end);
    } else {
      WindowBounds(last, offset, limit, end);
    }
  }
}
