/** Reading a topic's segment files record by record for a backup, and reading the messages back. */
module LogBackup {
  import opened Bytes
  import opened LogRecord
  import opened FlatLog

  // ---------- one record as the scanner reads it ----------

  datatype Piece = Whole(bytes: seq<byte>, appliIndex: u64) | AtEnd | Damaged

  /** Unlike the repair parser the scanner also checks the end magic number. */
  function PieceAt(file: seq<byte>, p: nat): Piece {
    if p + 2 > |file| then AtEnd
    else if file[p..p + 2] != MAGIC || p + HEADER_LEN > |file| then Damaged
    else
      var end := p + MIN_LEN + SizeField(file, p);
      if end > |file| || file[end - 1..end] != END_MAGIC then Damaged
      else Whole(file[p..end], AppliField(file, p))
  }

  lemma PieceOfHeld(file: seq<byte>, p: nat, r: Record)
    requires HoldsAt(file, p, r) && |r.data| < TWO32
    ensures PieceAt(file, p) == Whole(file[p..p + MIN_LEN + |r.data|], r.appliIndex)
  {
    HeldFields(file, p, r);
  }

  /** The records of one file, by position. */
  type Pieces = nat -> Piece

  function PiecesOf(file: seq<byte>): Pieces {
    (p: nat) => PieceAt(file, p)
  }

  /** `at` reads this file; the trigger keeps the definition out of the loops below. */
  ghost predicate ReadsFile(at: Pieces, file: seq<byte>) {
    forall p: nat {:trigger PieceAt(file, p)} :: at(p) == PieceAt(file, p)
  }

  /** What driving the scanner over `size` bytes hands out, and whether it ends in an error. */
  ghost function Handed(at: Pieces, size: nat, p: nat, e: u64): seq<byte>
    decreases size - p
  {
    var piece := at(p);
    if piece.Whole? && !(0 < e < piece.appliIndex) && 0 < |piece.bytes| <= size - p then
      piece.bytes + Handed(at, size, p + |piece.bytes|, e)
    else
      []
  }

  ghost predicate Fails(at: Pieces, size: nat, p: nat, e: u64)
    decreases size - p
  {
    var piece := at(p);
    if piece.Whole? && !(0 < e < piece.appliIndex) && 0 < |piece.bytes| <= size - p then
      Fails(at, size, p + |piece.bytes|, e)
    else
      piece.Damaged?
  }

  /** The first record from `k` on that is above the apply index; 0 sets no limit. */
  function FirstAbove(rs: seq<Record>, k: nat, endAppliIndex: u64): (m: nat)
    requires k <= |rs|
    ensures k <= m <= |rs|
    ensures m < |rs| ==> 0 < endAppliIndex < rs[m].appliIndex
    ensures forall i {:trigger rs[i].appliIndex} :: k <= i < m ==>
            endAppliIndex == 0 || rs[i].appliIndex <= endAppliIndex
    decreases |rs| - k
  {
    if k == |rs| || (endAppliIndex != 0 && rs[k].appliIndex > endAppliIndex) then k
    else FirstAbove(rs, k + 1, endAppliIndex)
  }

  /** The beginning of one more record, broken off. */
  ghost predicate IsTorn(torn: seq<byte>, r: Record) {
    |torn| < |Wrap(r)| && torn == Wrap(r)[..|torn|]
  }

  /** The file starts with these records. */
  ghost predicate StartsWith(file: seq<byte>, rs: seq<Record>) {
    forall k {:trigger HoldsAt(file, Pos(rs, k), rs[k])} :: 0 <= k < |rs| ==> HoldsAt(file, Pos(rs, k), rs[k])
  }

  lemma HeldBefore(file: seq<byte>, torn: seq<byte>, p: nat, r: Record)
    requires HoldsAt(file, p, r)
    ensures HoldsAt(file + torn, p, r)
  {
    assert forall i, j :: 0 <= i <= j <= |file| ==> (file + torn)[i..j] == file[i..j];
  }

  lemma FlatStarts(rs: seq<Record>, torn: seq<byte>)
    requires Storable(rs)
    ensures StartsWith(Flat(rs) + torn, rs)
  {
    FlatHolds(rs);
    forall k | 0 <= k < |rs|
      ensures HoldsAt(Flat(rs) + torn, Pos(rs, k), rs[k])
    {
      HeldBefore(Flat(rs), torn, Pos(rs, k), rs[k]);
    }
  }

  ghost predicate IsRead(at: Pieces, file: seq<byte>, rs: seq<Record>, k: nat)
    requires k < |rs|
  {
    && Pos(rs, k) <= Pos(rs, k + 1) <= |file|
    && at(Pos(rs, k)) == Whole(file[Pos(rs, k)..Pos(rs, k + 1)], rs[k].appliIndex)
  }

  /** At the start of each record the scanner reads this record. */
  ghost predicate ReadsRecords(at: Pieces, file: seq<byte>, rs: seq<Record>) {
    forall k :: 0 <= k < |rs| ==> IsRead(at, file, rs, k)
  }

  lemma RecordIsRead(at: Pieces, file: seq<byte>, rs: seq<Record>, k: nat)
    requires at == PiecesOf(file) && StartsWith(file, rs) && Storable(rs) && k < |rs|
    ensures IsRead(at, file, rs, k)
  {
    assert HoldsAt(file, Pos(rs, k), rs[k]);
    PieceOfHeld(file, Pos(rs, k), rs[k]);
  }

  lemma StartsReads(at: Pieces, file: seq<byte>, rs: seq<Record>)
    requires at == PiecesOf(file) && StartsWith(file, rs) && Storable(rs)
    ensures ReadsRecords(at, file, rs)
  {
    forall k | 0 <= k < |rs|
      ensures IsRead(at, file, rs, k)
    {
      RecordIsRead(at, file, rs, k);
    }
  }

  lemma JoinSlices(s: seq<byte>, p: nat, q: nat, z: nat)
    requires p <= q <= z <= |s|
    ensures s[p..q] + s[q..z] == s[p..z]
  {
  }

  lemma HandsOne(at: Pieces, file: seq<byte>, rs: seq<Record>, k: nat, e: u64)
    requires ReadsRecords(at, file, rs) && k < |rs|
    ensures var p, q, size := Pos(rs, k), Pos(rs, k + 1), |file|;
            && p <= q <= size
            && Handed(at, size, p, e) == (if 0 < e < rs[k].appliIndex then [] else file[p..q] + Handed(at, size, q, e))
            && Fails(at, size, p, e) == (if 0 < e < rs[k].appliIndex then false else Fails(at, size, q, e))
  {
    assert IsRead(at, file, rs, k);
  }

  /** From record `k` on, the scanner hands out the file up to the first record above the apply index. */
  lemma {:induction false} HandsRecords(at: Pieces, file: seq<byte>, rs: seq<Record>, k: nat, m: nat, e: u64)
    requires ReadsRecords(at, file, rs) && k <= |rs| && m == FirstAbove(rs, k, e)
    requires Pos(rs, |rs|) <= |file| && !at(Pos(rs, |rs|)).Whole?
    ensures Pos(rs, k) <= Pos(rs, m) <= |file|
    ensures Handed(at, |file|, Pos(rs, k), e) == file[Pos(rs, k)..Pos(rs, m)]
    ensures Fails(at, |file|, Pos(rs, k), e) <==> m == |rs| && at(Pos(rs, m)).Damaged?
    decreases |rs| - k
  {
    PosMonotone(rs, k, m);
    PosMonotone(rs, m, |rs|);
    if k < |rs| {
      HandsOne(at, file, rs, k, e);
      if m > k {
        HandsRecords(at, file, rs, k + 1, m, e);
        JoinSlices(file, Pos(rs, k), Pos(rs, k + 1), Pos(rs, m));
      }
    }
  }

  /** A record broken off behind the others ends the scan: silently within its magic number, else with an error. */
  lemma TornPiece(file: seq<byte>, torn: seq<byte>, r: Record)
    requires IsTorn(torn, r) && |r.data| < TWO32
    ensures PieceAt(file + torn, |file|) == if |torn| < 2 then AtEnd else Damaged
  {
    var b, whole := file + torn, Wrap(r);
    if |torn| >= 2 {
      assert b[|file|..|file| + 2] == whole[..2] == MAGIC by {
        HeaderFields(r);
        assert whole[..2] == Header(r)[..2];
      }
      if |torn| >= HEADER_LEN {
        assert b[|file|..|file| + HEADER_LEN] == whole[..HEADER_LEN] == Header(r);
        FieldsAt(b, |file|, Header(r));
        HeaderFields(r);
      }
    }
  }

  /**
   Scanning whole records followed by less than one more hands out exactly the records before the first one above
   the apply index; it fails exactly when it gets as far as a torn record of two bytes or more.
   */
  lemma ScannedFile(rs: seq<Record>, torn: seq<byte>, r: Record, e: u64)
    requires Storable(rs) && IsTorn(torn, r) && |r.data| < TWO32
    ensures var file := Flat(rs) + torn;
            && Handed(PiecesOf(file), |file|, 0, e) == Flat(rs[..FirstAbove(rs, 0, e)])
            && (Fails(PiecesOf(file), |file|, 0, e) <==> FirstAbove(rs, 0, e) == |rs| && |torn| >= 2)
  {
    var file, m := Flat(rs) + torn, FirstAbove(rs, 0, e);
    PosOfAll(rs);
    FlatStarts(rs, torn);
    StartsReads(PiecesOf(file), file, rs);
    TornPiece(Flat(rs), torn, r);
    HandsRecords(PiecesOf(file), file, rs, 0, m, e);
    FlatPrefix(rs, m);
    assert file[0..Pos(rs, m)] == Flat(rs)[..Pos(rs, m)];
  }

  // ---------- the scanner ----------

  /** The bytes of each file. */
  type Disk = map<string, seq<byte>>

  datatype Handle = NoFile | Opened(path: string)

  /** One piece more, or the end. */
  lemma HandsPiece(at: Pieces, size: nat, p: nat, e: u64, w: seq<byte>)
    requires at(p).Whole? ==> 0 < |at(p).bytes| <= size - p
    ensures var piece := at(p);
            if piece.Whole? && !(0 < e < piece.appliIndex) then
              && w + Handed(at, size, p, e) == w + piece.bytes + Handed(at, size, p + |piece.bytes|, e)
              && Fails(at, size, p, e) == Fails(at, size, p + |piece.bytes|, e)
            else
              w + Handed(at, size, p, e) == w && Fails(at, size, p, e) == piece.Damaged?
  {
  }

  lemma PieceStart(at: Pieces, file: seq<byte>, p: nat)
    requires ReadsFile(at, file)
    ensures p + 2 > |file| ==> at(p) == AtEnd
    ensures p + 2 <= |file| && (file[p..p + 2] != MAGIC || p + HEADER_LEN > |file|) ==> at(p) == Damaged
  {
    assert at(p) == PieceAt(file, p);
  }

  lemma PieceRest(at: Pieces, file: seq<byte>, p: nat, dataLen: u32, appliIndex: u64)
    requires ReadsFile(at, file) && p + HEADER_LEN <= |file| && file[p..p + 2] == MAGIC
    requires dataLen == SizeField(file, p) && appliIndex == AppliField(file, p)
    ensures var end := p + MIN_LEN + dataLen;
            at(p) == if end > |file| || file[end - 1..end] != END_MAGIC then Damaged
                     else Whole(file[p..end], appliIndex)
  {
    assert at(p) == PieceAt(file, p);
  }

  class Scanner {
    var f: Handle
    var segmentPath: string
    var position: nat

    constructor ()
      ensures Closed()
    {
      f, segmentPath, position := NoFile, "", 0;
    }

    /** No file is being scanned. */
    predicate Closed()
      reads this
    {
      f == NoFile && segmentPath == ""
    }

    predicate At(path: string, p: nat)
      reads this
    {
      f == Opened(path) && segmentPath == path && position == p
    }

    method EndScanner()
      modifies this
      ensures Closed()
    {
      f, segmentPath := NoFile, "";
    }

    /** The next `n` bytes, if the file has as many. */
    method Read(file: seq<byte>, n: nat) returns (ok: bool, b: seq<byte>)
      modifies this`position
      ensures ok <==> old(position) + n <= |file|
      ensures ok ==> position == old(position) + n && b == file[old(position)..position]
    {
      ok, b := position + n <= |file|, [];
      if ok {
        b := file[position..position + n];
        position := position + n;
      }
    }

    /** The header behind the magic number. */
    method ReadHeader(file: seq<byte>) returns (ok: bool, header: seq<byte>, dataLen: u32, appliIndex: u64)
      requires position >= 2
      modifies this`position
      ensures ok <==> old(position) + 21 <= |file|
      ensures ok ==> position == old(position) + 21 && header == file[old(position)..position]
      ensures ok ==> dataLen == SizeField(file, old(position) - 2) && appliIndex == AppliField(file, old(position) - 2)
    {
      dataLen, appliIndex, header := 0, 0, [];
      ghost var p := position;
      var version, dataLenBytes, offset, appliIndexBytes;
      ok, version := Read(file, 1);
      if !ok {
        return;
      }
      ok, dataLenBytes := Read(file, 4);
      if !ok {
        return;
      }
      ok, offset := Read(file, 8);
      if !ok {
        return;
      }
      ok, appliIndexBytes := Read(file, 8);
      if !ok {
        return;
      }
      SameU32(file, p + 1, dataLenBytes);
      SameU64(file, p + 13, appliIndexBytes);
      JoinSlices(file, p, p + 1, p + 5);
      JoinSlices(file, p, p + 5, p + 13);
      JoinSlices(file, p, p + 13, p + 21);
      header := version + dataLenBytes + offset + appliIndexBytes;
      dataLen, appliIndex := U32At(dataLenBytes, 0), U64At(appliIndexBytes, 0);
    }

    method ReadFullWrapLog(file: seq<byte>, ghost at: Pieces) returns (r: Piece)
      requires ReadsFile(at, file)
      modifies this`position
      ensures r == at(old(position))
      ensures r.Whole? ==> |r.bytes| > 0 && position == old(position) + |r.bytes| <= |file|
    {
      ghost var p := position;
      PieceStart(at, file, p);
      var ok, start := Read(file, 2);
      if !ok {
        return AtEnd;
      }
      if start != MAGIC {
        return Damaged;
      }
      var header, dataLen, appliIndex, data, end;
      ok, header, dataLen, appliIndex := ReadHeader(file);
      if !ok {
        return Damaged;
      }
      PieceRest(at, file, p, dataLen, appliIndex);
      ok, data := Read(file, dataLen);
      if !ok {
        return Damaged;
      }
      ok, end := Read(file, 1);
      if !ok || end != END_MAGIC {
        return Damaged;
      }
      JoinSlices(file, p, p + 2, p + 23);
      JoinSlices(file, p, p + 23, position - 1);
      JoinSlices(file, p, position - 1, position);
      r := Whole(start + header + data + end, appliIndex);
    }

    /** One step: hands one record to the callback, which takes it or fails. */
    method Scan(disk: Disk, path: string, endAppliIndex: u64, accepts: bool, ghost at: Pieces)
      returns (has: bool, failed: bool, handed: seq<byte>)
      requires path != "" && (segmentPath == path ==> f == Opened(path) && path in disk)
      requires path in disk ==> ReadsFile(at, disk[path])
      modifies this
      ensures path !in disk ==> !has && failed && handed == [] && f == NoFile && segmentPath == old(segmentPath)
      ensures path in disk ==>
              var p := if old(segmentPath) == path then old(position) else 0;
              match at(p)
              case Whole(bytes, appliIndex) =>
                0 < |bytes| <= |disk[path]| - p &&
                if endAppliIndex != 0 && appliIndex > endAppliIndex then !has && !failed && handed == [] && Closed()
                else if accepts then has && !failed && handed == bytes && At(path, p + |bytes|)
                else !has && failed && Closed()
              case AtEnd => !has && !failed && handed == [] && Closed()
              case Damaged => !has && failed && handed == [] && Closed()
    {
      has, failed, handed := false, false, [];
      if path != segmentPath {
        if path !in disk {
          f := NoFile;
          failed := true;
          return;
        }
        f, segmentPath, position := Opened(path), path, 0;
      }
      var piece := ReadFullWrapLog(disk[path], at);
      match piece
      case AtEnd =>
        EndScanner();
      case Damaged =>
        EndScanner();
        failed := true;
      case Whole(bytes, appliIndex) =>
        if endAppliIndex != 0 && appliIndex > endAppliIndex {
          EndScanner();
        } else {
          handed := bytes;
          if accepts {
            has := true;
          } else {
            EndScanner();
            failed := true;
          }
        }
    }

    /** Scanning one file to the end. */
    method ScanFile(disk: Disk, path: string, endAppliIndex: u64, ghost at: Pieces) returns (w: seq<byte>, failed: bool)
      requires Closed() && path != "" && path in disk && ReadsFile(at, disk[path])
      modifies this
      ensures Closed() && w == Handed(at, |disk[path]|, 0, endAppliIndex)
      ensures failed <==> Fails(at, |disk[path]|, 0, endAppliIndex)
    {
      ghost var size, p := |disk[path]|, 0;
      w, failed := [], false;
      var has := true;
      var handed;
      while has
        invariant has ==> !failed && (At(path, p) || (Closed() && p == 0)) && p <= size
        invariant has ==> w + Handed(at, size, p, endAppliIndex) == Handed(at, size, 0, endAppliIndex)
        invariant has ==> Fails(at, size, p, endAppliIndex) == Fails(at, size, 0, endAppliIndex)
        invariant !has ==> Closed() && w == Handed(at, size, 0, endAppliIndex)
        invariant !has ==> failed == Fails(at, size, 0, endAppliIndex)
        decreases has, size - p
      {
        has, failed, handed := Scan(disk, path, endAppliIndex, true, at);
        HandsPiece(at, size, p, endAppliIndex, w);
        w := w + handed;
        p := p + |handed|;
      }
    }
  }

  // ---------- the segment files of a topic ----------

  /** What scanning a path to its end hands out, and whether it fails. */
  ghost function PathScan(disk: Disk, path: string): (seq<byte>, bool) {
    if path !in disk then ([], true)
    else
      var at, size := PiecesOf(disk[path]), |disk[path]|;
      (Handed(at, size, 0, 0), Fails(at, size, 0, 0))
  }

  /** The same for every path. */
  type Scans = string -> (seq<byte>, bool)

  ghost function ScansOf(disk: Disk): Scans {
    (path: string) => PathScan(disk, path)
  }

  /** `scan` scans this disk; the trigger keeps the definition out of the loop below. */
  ghost predicate ScansDisk(scan: Scans, disk: Disk) {
    forall path {:trigger PathScan(disk, path)} :: scan(path) == PathScan(disk, path)
  }

  /** What backing up these files writes: a failure ends it. */
  ghost function Written(scan: Scans, paths: seq<string>): seq<byte> {
    if paths == [] then []
    else scan(paths[0]).0 + if scan(paths[0]).1 then [] else Written(scan, paths[1..])
  }

  ghost predicate BackupFails(scan: Scans, paths: seq<string>) {
    paths != [] && (scan(paths[0]).1 || BackupFails(scan, paths[1..]))
  }

  method BackupFile(scanner: Scanner, disk: Disk, path: string, ghost scan: Scans)
    returns (handed: seq<byte>, failed: bool)
    requires scanner.Closed() && path != "" && ScansDisk(scan, disk)
    modifies scanner
    ensures scanner.Closed() && handed == scan(path).0 && failed == scan(path).1
    ensures path !in disk ==> failed && handed == []
  {
    assert scan(path) == PathScan(disk, path);
    if path in disk {
      handed, failed := scanner.ScanFile(disk, path, 0, PiecesOf(disk[path]));
    } else {
      var has;
      has, failed, handed := scanner.Scan(disk, path, 0, true, PiecesOf([]));
    }
  }

  method BackupMessages(scanner: Scanner, disk: Disk, paths: seq<string>, ghost scan: Scans)
    returns (w: seq<byte>, failed: bool)
    requires scanner.Closed() && "" !in paths && ScansDisk(scan, disk)
    modifies scanner
    ensures scanner.Closed() && w == Written(scan, paths) && failed == BackupFails(scan, paths)
  {
    w, failed := [], false;
    var i := 0;
    assert paths[0..] == paths;
    while i < |paths|
      invariant i <= |paths| && scanner.Closed() && !failed
      invariant w + Written(scan, paths[i..]) == Written(scan, paths)
      invariant BackupFails(scan, paths[i..]) == BackupFails(scan, paths)
    {
      assert paths[i..][1..] == paths[i + 1..];
      ghost var rest := Written(scan, paths[i + 1..]);
      var handed;
      handed, failed := BackupFile(scanner, disk, paths[i], scan);
      assert w + (handed + rest) == w + handed + rest;
      w := w + handed;
      if failed {
        return;
      }
      i := i + 1;
    }
  }

  /** The files hold these records, segment by segment. */
  ghost predicate HoldTopic(disk: Disk, paths: seq<string>, parts: seq<seq<Record>>) {
    |paths| == |parts| && forall i :: 0 <= i < |paths| ==>
      paths[i] in disk && disk[paths[i]] == Flat(parts[i]) && Storable(parts[i])
  }

  lemma CleanFile(disk: Disk, path: string, rs: seq<Record>)
    requires path in disk && Storable(rs) && disk[path] == Flat(rs)
    ensures PathScan(disk, path) == (Flat(rs), false)
  {
    ScannedFile(rs, [], Record(0, 0, []), 0);
    assert Flat(rs) + [] == Flat(rs) && rs[..|rs|] == rs;
  }

  /** The backup of whole segments is the one flat log they make. */
  lemma {:induction false} BackupIsFlat(disk: Disk, scan: Scans, paths: seq<string>, parts: seq<seq<Record>>)
    requires HoldTopic(disk, paths, parts) && ScansDisk(scan, disk)
    ensures Written(scan, paths) == Flat(Joined(parts)) && !BackupFails(scan, paths)
    decreases |paths|
  {
    if paths != [] {
      CleanFile(disk, paths[0], parts[0]);
      BackupIsFlat(disk, scan, paths[1..], parts[1..]);
      FlatConcat(parts[0], Joined(parts[1..]));
    }
  }

  /** The files that are there hold these records, each followed by less than one more. */
  ghost predicate HoldTorn(disk: Disk, paths: seq<string>, parts: seq<seq<Record>>, torn: seq<seq<byte>>) {
    |paths| == |parts| == |torn| && forall i :: 0 <= i < |paths| && paths[i] in disk ==>
      HoldsTorn(disk[paths[i]], parts[i], torn[i])
  }

  ghost predicate HoldsTorn(file: seq<byte>, rs: seq<Record>, torn: seq<byte>) {
    file == Flat(rs) + torn && Storable(rs) && exists r :: IsTorn(torn, r) && |r.data| < TWO32
  }

  /** Backing a file up fails exactly when it is missing or has two bytes or more behind its last whole record. */
  lemma TornFile(disk: Disk, path: string, rs: seq<Record>, torn: seq<byte>)
    requires path in disk ==> HoldsTorn(disk[path], rs, torn)
    ensures PathScan(disk, path) == if path in disk then (Flat(rs), |torn| >= 2) else ([], true)
  {
    if path in disk {
      var r :| IsTorn(torn, r) && |r.data| < TWO32;
      ScannedFile(rs, torn, r, 0);
      assert rs[..|rs|] == rs;
    }
  }

  /** File `n` is the first that is missing or has two bytes or more behind its last whole record. */
  ghost predicate FirstBad(disk: Disk, paths: seq<string>, torn: seq<seq<byte>>, n: nat)
    requires |paths| == |torn|
  {
    && n <= |paths| && (forall i :: 0 <= i < n ==> paths[i] in disk && |torn[i]| < 2)
    && (n < |paths| ==> paths[n] !in disk || |torn[n]| >= 2)
  }

  /** The whole records of that file. */
  ghost function Salvaged(disk: Disk, paths: seq<string>, parts: seq<seq<Record>>, n: nat): seq<byte>
    requires |paths| == |parts|
  {
    if n < |paths| && paths[n] in disk then Flat(parts[n]) else []
  }

  lemma JoinFirst(parts: seq<seq<Record>>, n: nat, rest: seq<seq<Record>>, end: seq<byte>)
    requires 0 < n <= |parts| && rest == parts[1..]
    ensures Flat(Joined(parts[..n])) + end == Flat(parts[0]) + (Flat(Joined(rest[..n - 1])) + end)
  {
    assert parts[..n][1..] == rest[..n - 1];
    FlatConcat(parts[0], Joined(rest[..n - 1]));
  }

  /** The backup fails exactly when there is such a file; it has the whole records up to there, and nothing else. */
  lemma {:induction false} BackupOfTorn(disk: Disk, scan: Scans, paths: seq<string>, parts: seq<seq<Record>>,
                                        torn: seq<seq<byte>>, n: nat)
    requires HoldTorn(disk, paths, parts, torn) && ScansDisk(scan, disk) && FirstBad(disk, paths, torn, n)
    ensures BackupFails(scan, paths) <==> n < |paths|
    ensures Written(scan, paths) == Flat(Joined(parts[..n])) + Salvaged(disk, paths, parts, n)
    decreases |paths|
  {
    if paths != [] {
      TornFile(disk, paths[0], parts[0], torn[0]);
      assert scan(paths[0]) == PathScan(disk, paths[0]);
      if n > 0 {
        BackupOfTorn(disk, scan, paths[1..], parts[1..], torn[1..], n - 1);
        JoinFirst(parts, n, parts[1..], Salvaged(disk, paths, parts, n));
      }
    }
  }
}
