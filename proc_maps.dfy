/** The unix `/proc/self/maps` walk `iter_proc_maps` and the two callbacks
    the local accessor hands it. Opening and reading the file and `sscanf`
    are not modelled: the walk receives, per line, what `sscanf` returned. */
module ProcMaps {
  import opened Word
  import opened ProtFlags
  import opened Common
  import opened Os

  /** What `sscanf` made of one line: `count` is its return value, and a
      field beyond the first `count` conversions carries no meaning.
      `perms` is what `%4s` stored, without the terminating NUL. */
  datatype ScannedLine = ScannedLine(count: int, start: u64, end: u64, perms: seq<char>, offset: u64, path: seq<char>)
  {
    /** `%4s` stores one to four non-NUL characters. */
    predicate WellFormed() {
      1 <= |perms| <= 4 && forall i | 0 <= i < |perms| :: perms[i] != '\0'
    }
  }

  const PROT_READ_BIT: bv32 := 1
  const PROT_WRITE_BIT: bv32 := 2
  const PROT_EXEC_BIT: bv32 := 4
  const MAP_SHARED: bv32 := 0x01
  const MAP_PRIVATE: bv32 := 0x02
  const MAP_ANONYMOUS: bv32 := 0x20

  /** `vmem_area_t`. */
  datatype VmemArea = VmemArea(start: u64, end: u64, offset: u64, prot: bv32, flags: bv32, pathName: Option<seq<char>>)

  /** The 5-byte `perms` buffer after a `sscanf` call on `line`: the stored
      characters and their NUL when the third conversion happened; characters
      past the NUL are left over from earlier lines. */
  function ScanPerms(buf: seq<char>, line: ScannedLine): (r: seq<char>)
    requires |buf| == 5 && line.WellFormed()
    ensures |r| == 5
    ensures line.count >= 3 ==>
      r[|line.perms|] == '\0' && forall i | 0 <= i < |line.perms| :: r[i] == line.perms[i]
    ensures line.count < 3 ==> r == buf
  {
    if line.count >= 3 then line.perms + ['\0'] + buf[|line.perms| + 1..] else buf
  }

  /** The protection mask built from the first three buffer characters. */
  function ProtOf(buf: seq<char>): bv32
    requires |buf| == 5
  {
    (if buf[0] == 'r' then PROT_READ_BIT else 0)
    | (if buf[1] == 'w' then PROT_WRITE_BIT else 0)
    | (if buf[2] == 'x' then PROT_EXEC_BIT else 0)
  }

  /** The entry a line with at least four conversions describes, with the
      `perms` buffer `buf` as it stands after that line. */
  function Decode(line: ScannedLine, buf: seq<char>): VmemArea
    requires |buf| == 5
  {
    var sharing: bv32 := if buf[3] == 's' then MAP_SHARED else if buf[3] == 'p' then MAP_PRIVATE else 0;
    VmemArea(line.start, line.end, line.offset, ProtOf(buf),
             if line.count > 4 then sharing else sharing | MAP_ANONYMOUS,
             if line.count > 4 then Some(line.path) else None)
  }

  /** The permission characters set exactly their bits; `s` and `p` at
      position 3 set SHARED and PRIVATE; a missing path sets ANONYMOUS and
      leaves the path null. */
  lemma DecodeBits(line: ScannedLine, buf: seq<char>)
    requires |buf| == 5 && line.count >= 4
    ensures var v := Decode(line, buf);
      && (v.prot & PROT_READ_BIT != 0 <==> buf[0] == 'r')
      && (v.prot & PROT_WRITE_BIT != 0 <==> buf[1] == 'w')
      && (v.prot & PROT_EXEC_BIT != 0 <==> buf[2] == 'x')
      && v.prot & !(PROT_READ_BIT | PROT_WRITE_BIT | PROT_EXEC_BIT) == 0
      && (v.flags & MAP_SHARED != 0 <==> buf[3] == 's')
      && (v.flags & MAP_PRIVATE != 0 <==> buf[3] == 'p')
      && (v.flags & MAP_ANONYMOUS != 0 <==> line.count == 4)
      && (v.pathName.None? <==> line.count == 4)
      && (v.pathName.Some? ==> v.pathName.value == line.path)
      && v.start == line.start && v.end == line.end && v.offset == line.offset
  {
  }

  /** With the four permission characters the kernel always prints, the
      decoding depends on this line alone. */
  lemma DecodeFullPerms(line: ScannedLine, buf: seq<char>, other: seq<char>)
    requires |buf| == 5 && |other| == 5 && line.WellFormed() && |line.perms| == 4 && line.count >= 4
    ensures Decode(line, ScanPerms(buf, line)) == Decode(line, ScanPerms(other, line))
  {
    assert ScanPerms(buf, line)[..4] == line.perms == ScanPerms(other, line)[..4];
  }

  /** The decoded mask is always a recognised native mask. */
  lemma ProtOfValid(buf: seq<char>)
    requires |buf| == 5
    ensures ToProtFlags(ProtOf(buf) as int).Prot?
    ensures ToProtFlags(ProtOf(buf) as int) == Prot(buf[0] == 'r', buf[1] == 'w', buf[2] == 'x')
  {
    var r: bv32 := if buf[0] == 'r' then 1 else 0;
    var w: bv32 := if buf[1] == 'w' then 2 else 0;
    var x: bv32 := if buf[2] == 'x' then 4 else 0;
    assert ProtOf(buf) == r | w | x;
    assert r | w | x == r + w + x;
  }

  /** What `iter_proc_maps` does, from the state `buf` of the perms buffer:
      lines with fewer than four conversions are skipped; every other line
      goes to the callback, and the first nonzero answer ends the walk and is
      returned; 0 when no callback answered nonzero. */
  function WalkMaps<Q>(lines: seq<ScannedLine>, buf: seq<char>, callback: (VmemArea, Q) -> (int, Q), data: Q): (int, Q)
    requires |buf| == 5 && forall i | 0 <= i < |lines| :: lines[i].WellFormed()
    decreases |lines|
  {
    if lines == [] then (0, data)
    else
      var buf' := ScanPerms(buf, lines[0]);
      if lines[0].count < 4 then WalkMaps(lines[1..], buf', callback, data)
      else
        var (r, d) := callback(Decode(lines[0], buf'), data);
        if r != 0 then (r, d) else WalkMaps(lines[1..], buf', callback, d)
  }

  /** `iter_proc_maps(callback, data)`. `maps` is None when the file cannot
      be opened, else the `sscanf` results of its lines; `perms0` is the
      initial content of the uninitialised `perms` buffer. */
  method IterProcMaps<Q>(maps: Option<seq<ScannedLine>>, callback: (VmemArea, Q) -> (int, Q), data: Q, perms0: seq<char>)
    returns (result: int, dataOut: Q)
    requires |perms0| == 5
    requires maps.Some? ==> forall i | 0 <= i < |maps.value| :: maps.value[i].WellFormed()
    ensures maps.None? ==> result == 0 && dataOut == data
    ensures maps.Some? ==> (result, dataOut) == WalkMaps(maps.value, perms0, callback, data)
  {
    result, dataOut := 0, data;
    if maps.None? {
      return;
    }
    var lines := maps.value;
    var perms := perms0;
    var i := 0;
    while i < |lines|
      invariant 0 <= i <= |lines| && |perms| == 5
      invariant WalkMaps(lines, perms0, callback, data) == WalkMaps(lines[i..], perms, callback, dataOut)
      invariant result == 0
    {
      assert lines[i..][1..] == lines[i + 1..];
      var line := lines[i];
      perms := ScanPerms(perms, line);
      i := i + 1;
      if line.count < 4 {
        continue;
      }
      var prot: bv32 := 0;
      var flags: bv32 := 0;
      if perms[0] == 'r' {
        prot := prot | PROT_READ_BIT;
      }
      if perms[1] == 'w' {
        prot := prot | PROT_WRITE_BIT;
      }
      if perms[2] == 'x' {
        prot := prot | PROT_EXEC_BIT;
      }
      if perms[3] == 's' {
        flags := flags | MAP_SHARED;
      } else if perms[3] == 'p' {
        flags := flags | MAP_PRIVATE;
      }
      var pathName: Option<seq<char>>;
      if line.count > 4 {
        pathName := Some(line.path);
      } else {
        flags := flags | MAP_ANONYMOUS;
        pathName := None;
      }
      var vmem := VmemArea(line.start, line.end, line.offset, prot, flags, pathName);
      assert vmem == Decode(line, perms);
      var answer := callback(vmem, dataOut);
      result, dataOut := answer.0, answer.1;
      if result != 0 {
        return;
      }
    }
  }

  /** `prot_query`. */
  datatype ProtQuery = ProtQuery(address: u64, result: Flags)

  /** `region_query`. */
  datatype RegionQuery = RegionQuery(address: u64, region: RegionInfo)

  /** The entry contains the queried address. */
  predicate Hit(v: VmemArea, address: u64) {
    v.start <= address < v.end
  }

  /** `prot_query_callback`. */
  function ProtQueryCallback(v: VmemArea, q: ProtQuery): (r: (int, ProtQuery))
    ensures r.0 == 1 <==> Hit(v, q.address)
    ensures r.0 == 0 <==> !Hit(v, q.address)
    ensures r.0 == 0 ==> r.1 == q
    ensures r.0 == 1 ==> r.1 == q.(result := ToProtFlags(v.prot as int))
  {
    if q.address >= v.start && q.address < v.end then (1, q.(result := ToProtFlags(v.prot as int))) else (0, q)
  }

  /** `region_query_callback` as written: the size is `start - end`, which
      wraps around for every entry that contains the address. */
  function RegionQueryCallbackAsWritten(v: VmemArea, q: RegionQuery): (r: (int, RegionQuery))
    ensures r.0 == 1 <==> Hit(v, q.address)
    ensures r.0 == 0 ==> r.1 == q
    ensures r.0 == 1 ==> r.1.region.size == W - (v.end - v.start)
  {
    if q.address >= v.start && q.address < v.end then
      (1, q.(region := RegionInfo(v.start, Wrap(v.start - v.end), ToProtFlags(v.prot as int))))
    else (0, q)
  }

  /** `region_query_callback` as evidently intended: the size is `end - start`. */
  function RegionQueryCallback(v: VmemArea, q: RegionQuery): (r: (int, RegionQuery))
    ensures r.0 == 1 <==> Hit(v, q.address)
    ensures r.0 == 0 ==> r.1 == q
    ensures r.0 == 1 ==> r.1.address == q.address && r.1.region == RegionOf(v)
  {
    if q.address >= v.start && q.address < v.end then (1, q.(region := RegionOf(v))) else (0, q)
  }

  /** The region an entry describes: `[start, end)` with its flags. */
  function RegionOf(v: VmemArea): (r: RegionInfo)
    requires v.start < v.end
    ensures r.start == v.start && r.start + r.size == v.end
  {
    RegionInfo(v.start, v.end - v.start, ToProtFlags(v.prot as int))
  }

  /** As written, the reported region of a one-page entry
      `[0x1000, 0x2000)` is `2^64 - 0x1000` bytes long, not 0x1000, and
      runs past the end of the address space. */
  lemma RegionSizeAsWrittenIsWrong()
    ensures var v := VmemArea(0x1000, 0x2000, 0, 3, MAP_PRIVATE, None);
      var q := RegionQuery(0x1800, RegionInfo(0, 0, NONE));
      && RegionQueryCallbackAsWritten(v, q).1.region.size == W - 0x1000
      && RegionQueryCallbackAsWritten(v, q).1.region.start + RegionQueryCallbackAsWritten(v, q).1.region.size > MaxWord
      && RegionQueryCallback(v, q).1.region.size == 0x1000
  {
  }

  /** The corrected region contains the queried address. */
  lemma RegionQueryContainsAddress(v: VmemArea, q: RegionQuery)
    requires RegionQueryCallback(v, q).0 == 1
    ensures var r := RegionQueryCallback(v, q).1.region;
      r.start <= q.address < r.start + r.size
  {
  }

  /** The first entry, from the buffer state `buf`, that contains `address`. */
  function FirstHit(lines: seq<ScannedLine>, buf: seq<char>, address: u64): Option<VmemArea>
    requires |buf| == 5 && forall i | 0 <= i < |lines| :: lines[i].WellFormed()
    decreases |lines|
  {
    if lines == [] then None
    else
      var buf' := ScanPerms(buf, lines[0]);
      if lines[0].count >= 4 && Hit(Decode(lines[0], buf'), address) then Some(Decode(lines[0], buf'))
      else FirstHit(lines[1..], buf', address)
  }

  /** The region walk answers 1 with the region of the first entry that
      contains the address, or 0 with the query untouched when none does. */
  lemma {:induction false} RegionWalk(lines: seq<ScannedLine>, buf: seq<char>, q: RegionQuery)
    requires |buf| == 5 && forall i | 0 <= i < |lines| :: lines[i].WellFormed()
    ensures var w := WalkMaps(lines, buf, RegionQueryCallback, q);
      match FirstHit(lines, buf, q.address)
      case None => w == (0, q)
      case Some(v) => v.start <= q.address < v.end && w == (1, q.(region := RegionOf(v)))
    decreases |lines|
  {
    if lines != [] {
      RegionWalk(lines[1..], ScanPerms(buf, lines[0]), q);
    }
  }

  /** The protection walk answers 1 with the flags of the first entry that
      contains the address, or 0 with the query untouched when none does. */
  lemma {:induction false} ProtWalk(lines: seq<ScannedLine>, buf: seq<char>, q: ProtQuery)
    requires |buf| == 5 && forall i | 0 <= i < |lines| :: lines[i].WellFormed()
    ensures var w := WalkMaps(lines, buf, ProtQueryCallback, q);
      match FirstHit(lines, buf, q.address)
      case None => w == (0, q)
      case Some(v) => w == (1, q.(result := ToProtFlags(v.prot as int))) && w.1.result.Prot?
    decreases |lines|
  {
    if lines != [] {
      var buf' := ScanPerms(buf, lines[0]);
      ProtWalk(lines[1..], buf', q);
      if lines[0].count >= 4 && Hit(Decode(lines[0], buf'), q.address) {
        ProtOfValid(buf');
      }
    }
  }

  /** A line with fewer than four conversions never reaches the callback:
      the walk goes on as if it were absent, apart from what `sscanf` left in
      the perms buffer. */
  lemma SkippedLine<Q>(line: ScannedLine, rest: seq<ScannedLine>, buf: seq<char>, callback: (VmemArea, Q) -> (int, Q), data: Q)
    requires |buf| == 5 && line.WellFormed() && line.count < 4
    requires forall i | 0 <= i < |rest| :: rest[i].WellFormed()
    ensures WalkMaps([line] + rest, buf, callback, data) == WalkMaps(rest, ScanPerms(buf, line), callback, data)
  {
    assert ([line] + rest)[1..] == rest;
  }
}
