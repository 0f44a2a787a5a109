/** What `scan` promises, proved about its model layer by layer: one block,
    the block stream over one window, the streams of all windows, the region
    walk, and the whole scan. */
module ScanProperties {
  import opened ProtFlags
  import opened Common
  import opened Os
  import opened Access
  import opened Pattern
  import opened ScanConfig
  import opened MemoryScanner

  /** The pattern occurs in `m` at address `a`: every token matches the byte
      mapped at its position. */
  predicate OccursAt(pattern: seq<Token>, m: Memory, a: nat) {
    forall k | 0 <= k < |pattern| :: a + k in m.bytes && TokenMatches(pattern[k], m.bytes[a + k])
  }

  /** Every reported address holds an occurrence, inside `[lo, hi)`, whose
      bytes are all readable. */
  predicate SoundIn(v: View, s: Scanner, results: seq<nat>, lo: nat, hi: nat) {
    forall a | a in results ::
      lo <= a && a + s.PatternSize() <= hi && v.mem.Readable(a, s.PatternSize()) && OccursAt(s.pattern, v.mem, a)
  }

  // ---------------------------------------------------------------- one block

  /** The addresses reported for one block are exactly the occurrences that
      lie entirely inside the bytes read, in ascending order. */
  lemma BlockSound(v: View, s: Scanner, pos: nat, n: nat)
    requires v.mem.Valid() && s.IsReady()
    ensures SoundIn(v, s, Block(v, s, pos, n), pos, pos + n)
    ensures StrictlyAscending(Block(v, s, pos, n))
  {
    if v.ReadOk(pos, n) {
      var buf := v.mem.BytesAt(pos, n);
      var hits := s.ScanAll(buf);
      var r := Block(v, s, pos, n);
      forall a | a in r
        ensures pos <= a && a + s.PatternSize() <= pos + n
        ensures v.mem.Readable(a, s.PatternSize()) && OccursAt(s.pattern, v.mem, a)
      {
        var i :| 0 <= i < |r| && r[i] == a;
        assert hits[i] in hits;
        assert MatchesAt(s.pattern, buf, hits[i]);
        forall k | 0 <= k < |s.pattern|
          ensures a + k in v.mem.bytes && TokenMatches(s.pattern[k], v.mem.bytes[a + k])
        {
          assert buf[hits[i] + k] == v.mem.bytes[pos + (hits[i] + k)];
        }
      }
    }
  }

  /** An occurrence inside the bytes of a block that was read is reported. */
  lemma BlockComplete(v: View, s: Scanner, pos: nat, n: nat, a: nat)
    requires v.mem.Valid() && s.IsReady() && v.ReadOk(pos, n)
    requires pos <= a && a + s.PatternSize() <= pos + n && OccursAt(s.pattern, v.mem, a)
    ensures a in Block(v, s, pos, n)
  {
    var buf := v.mem.BytesAt(pos, n);
    var j: nat := a - pos;
    forall k | 0 <= k < |s.pattern|
      ensures TokenMatches(s.pattern[k], buf[j + k])
    {
      assert buf[j + k] == v.mem.bytes[a + k];
    }
    assert MatchesAt(s.pattern, buf, j);
    var hits := s.ScanAll(buf);
    var i :| 0 <= i < |hits| && hits[i] == j;
    assert Block(v, s, pos, n)[i] == a;
  }

  /** Two ascending sequences, the first wholly below the second, make an
      ascending sequence. */
  lemma AscendingAppend(x: seq<nat>, y: seq<nat>)
    requires StrictlyAscending(x) && StrictlyAscending(y)
    requires forall a, b | a in x && b in y :: a < b
    ensures StrictlyAscending(x + y)
  {
    forall i, j | 0 <= i < j < |x + y|
      ensures (x + y)[i] < (x + y)[j]
    {
      if j < |x| {
      } else if i >= |x| {
        assert (x + y)[i] == y[i - |x|] && (x + y)[j] == y[j - |x|];
      } else {
        assert (x + y)[i] == x[i] && x[i] in x;
        assert (x + y)[j] == y[j - |x|] && y[j - |x|] in y;
      }
    }
  }

  // ------------------------------------------------- the stream of one window

  /** Every address the stream over `[pos, end)` reports holds an occurrence
      inside the window, and each is reported once, in ascending order: the
      block at `p` reports below `p + block_size`, where the next block's
      reports begin. */
  lemma {:induction false} StreamSound(v: View, s: Scanner, pos: nat, end: nat, blockSize: BlockSize)
    requires v.mem.Valid() && s.IsReady()
    ensures SoundIn(v, s, Stream(v, s, pos, end, blockSize).results, pos, end)
    ensures StrictlyAscending(Stream(v, s, pos, end, blockSize).results)
    decreases end - pos
  {
    if pos < end {
      var n := Min(blockSize + s.PatternSize() - 1, end - pos);
      var here := Block(v, s, pos, n);
      var rest := Stream(v, s, pos + blockSize, end, blockSize).results;
      StreamStep(v, s, pos, end, blockSize);
      BlockSound(v, s, pos, n);
      StreamSound(v, s, pos + blockSize, end, blockSize);
      assert Stream(v, s, pos, end, blockSize).results == here + rest;
      AscendingAppend(here, rest);
    }
  }

  /** The start of the block of the stream from `pos` that covers `a`. */
  function Cover(pos: nat, a: nat, blockSize: BlockSize): (c: nat)
    requires pos <= a
    ensures pos <= c <= a < c + blockSize
    decreases a - pos
  {
    if a < pos + blockSize then pos else Cover(pos + blockSize, a, blockSize)
  }

  /** The stream reports every occurrence inside the window whose covering
      block was read: a failed read loses only the occurrences of its own
      block. */
  lemma {:induction false} StreamComplete(v: View, s: Scanner, pos: nat, end: nat, blockSize: BlockSize, a: nat)
    requires v.mem.Valid() && s.IsReady()
    requires pos <= a && a + s.PatternSize() <= end && OccursAt(s.pattern, v.mem, a)
    requires v.ReadOk(Cover(pos, a, blockSize), Min(blockSize + s.PatternSize() - 1, end - Cover(pos, a, blockSize)))
    ensures a in Stream(v, s, pos, end, blockSize).results
    decreases end - pos
  {
    var n := Min(blockSize + s.PatternSize() - 1, end - pos);
    StreamStep(v, s, pos, end, blockSize);
    var rest := Stream(v, s, pos + blockSize, end, blockSize).results;
    assert Stream(v, s, pos, end, blockSize).results == Block(v, s, pos, n) + rest;
    if a < pos + blockSize {
      BlockComplete(v, s, pos, n, a);
    } else {
      StreamComplete(v, s, pos + blockSize, end, blockSize, a);
    }
  }

  /** The reads of a stream over `[pos, end)`: the first at `pos`, each
      next one `block_size` further, the last one less than `block_size`
      before `end`, and each of `min(block_size + pattern_size - 1, end -
      addr)` bytes. */
  predicate Paced(rs: seq<Request>, pos: nat, end: nat, blockSize: BlockSize, patternSize: nat) {
    && (rs == [] <==> end <= pos)
    && (rs != [] ==> rs[0].addr == pos && end <= rs[|rs| - 1].addr + blockSize)
    && (forall i | 0 <= i < |rs| ::
          pos <= rs[i].addr < end && rs[i].size == Min(blockSize + patternSize - 1, end - rs[i].addr))
    && (forall i | 0 <= i < |rs| - 1 :: rs[i + 1].addr == rs[i].addr + blockSize)
  }

  lemma PacedCons(r: Request, rest: seq<Request>, pos: nat, end: nat, blockSize: BlockSize, patternSize: nat)
    requires pos < end && r == Request(pos, Min(blockSize + patternSize - 1, end - pos))
    requires Paced(rest, pos + blockSize, end, blockSize, patternSize)
    ensures Paced([r] + rest, pos, end, blockSize, patternSize)
  {
    var rs := [r] + rest;
    forall i | 0 <= i < |rs| - 1
      ensures rs[i + 1].addr == rs[i].addr + blockSize
    {
      if i > 0 {
        assert rs[i] == rest[i - 1] && rs[i + 1] == rest[i];
      }
    }
    forall i | 0 <= i < |rs|
      ensures pos <= rs[i].addr < end && rs[i].size == Min(blockSize + patternSize - 1, end - rs[i].addr)
    {
      if i > 0 {
        assert rs[i] == rest[i - 1];
      }
    }
  }

  /** The reads the stream over `[pos, end)` issues are paced by the block
      size. */
  lemma {:induction false} StreamRequests(v: View, s: Scanner, pos: nat, end: nat, blockSize: BlockSize)
    requires v.mem.Valid() && s.IsReady()
    ensures Paced(Stream(v, s, pos, end, blockSize).requests, pos, end, blockSize, s.PatternSize())
    decreases end - pos
  {
    if pos < end {
      StreamStep(v, s, pos, end, blockSize);
      StreamRequests(v, s, pos + blockSize, end, blockSize);
      var n := Min(blockSize + s.PatternSize() - 1, end - pos);
      PacedCons(Request(pos, n), Stream(v, s, pos + blockSize, end, blockSize).requests, pos, end, blockSize, s.PatternSize());
    }
  }
  /** `[a, a + n)` lies inside the window `w`. */
  predicate Covers(w: Window, a: nat, n: nat) {
    w.lo <= a && a + n <= w.hi
  }

  /** A stream over a readable window reports every occurrence inside it. */
  lemma WindowComplete(v: View, s: Scanner, w: Window, blockSize: BlockSize, a: nat)
    requires v.mem.Valid() && s.IsReady() && v.reachable
    requires Covers(w, a, s.PatternSize()) && v.mem.Readable(w.lo, w.hi - w.lo) && OccursAt(s.pattern, v.mem, a)
    ensures a in Stream(v, s, w.lo, w.hi, blockSize).results
  {
    var c := Cover(w.lo, a, blockSize);
    assert c in v.mem.prot;
    StreamComplete(v, s, w.lo, w.hi, blockSize, a);
  }

  // ------------------------------------------------- the streams of all windows

  /** Windows, each non-empty, in ascending order without overlap. */
  predicate Ordered(ws: seq<Window>) {
    && (forall i | 0 <= i < |ws| :: ws[i].lo < ws[i].hi)
    && (forall i, j | 0 <= i < j < |ws| :: ws[i].hi <= ws[j].lo)
  }

  /** `[a, a + n)` lies inside one of the windows. */
  predicate CoveredBy(ws: seq<Window>, a: nat, n: nat) {
    exists i | 0 <= i < |ws| :: Covers(ws[i], a, n)
  }

  /** A read that stays inside one of the windows and asks for at most
      `block_size + pattern_size - 1` bytes. */
  predicate ReadInside(ws: seq<Window>, r: Request, blockSize: BlockSize, patternSize: nat) {
    0 < r.size <= blockSize + patternSize - 1 && CoveredBy(ws, r.addr, r.size)
  }

  /** Every address the streams of the windows report holds a readable
      occurrence inside one window; over ordered windows the reports ascend. */
  lemma {:induction false} StreamAllSound(v: View, s: Scanner, ws: seq<Window>, blockSize: BlockSize)
    requires v.mem.Valid() && s.IsReady()
    ensures forall a | a in StreamAll(v, s, ws, blockSize).results ::
      CoveredBy(ws, a, s.PatternSize()) && v.mem.Readable(a, s.PatternSize()) && OccursAt(s.pattern, v.mem, a)
    ensures Ordered(ws) ==> StrictlyAscending(StreamAll(v, s, ws, blockSize).results)
    decreases |ws|
  {
    if ws != [] {
      var init, last := ws[..|ws| - 1], ws[|ws| - 1];
      var m := s.PatternSize();
      StreamAllSound(v, s, init, blockSize);
      StreamSound(v, s, last.lo, last.hi, blockSize);
      var x := StreamAll(v, s, init, blockSize).results;
      var y := Stream(v, s, last.lo, last.hi, blockSize).results;
      assert StreamAll(v, s, ws, blockSize).results == x + y;
      forall a | a in x + y
        ensures CoveredBy(ws, a, m)
      {
        if a in x {
          var i :| 0 <= i < |init| && Covers(init[i], a, m);
          assert ws[i] == init[i];
        } else {
          assert Covers(ws[|ws| - 1], a, m);
        }
      }
      if Ordered(ws) {
        assert Ordered(init) by {
          forall i | 0 <= i < |init| ensures init[i] == ws[i] { }
        }
        forall a, b | a in x && b in y
          ensures a < b
        {
          var i :| 0 <= i < |init| && Covers(init[i], a, m);
          assert init[i] == ws[i];
        }
        AscendingAppend(x, y);
      }
    }
  }

  /** The streams report every occurrence inside a readable window. */
  lemma {:induction false} StreamAllComplete(v: View, s: Scanner, ws: seq<Window>, blockSize: BlockSize, i: nat, a: nat)
    requires v.mem.Valid() && s.IsReady() && v.reachable && i < |ws|
    requires Covers(ws[i], a, s.PatternSize()) && v.mem.Readable(ws[i].lo, ws[i].hi - ws[i].lo)
    requires OccursAt(s.pattern, v.mem, a)
    ensures a in StreamAll(v, s, ws, blockSize).results
    decreases |ws|
  {
    var init, last := ws[..|ws| - 1], ws[|ws| - 1];
    var x := StreamAll(v, s, init, blockSize).results;
    var y := Stream(v, s, last.lo, last.hi, blockSize).results;
    assert StreamAll(v, s, ws, blockSize).results == x + y;
    if i == |ws| - 1 {
      WindowComplete(v, s, last, blockSize, a);
      assert a in y;
    } else {
      assert init[i] == ws[i];
      StreamAllComplete(v, s, init, blockSize, i, a);
      assert a in x;
    }
  }

  /** Every read the streams issue stays inside one window. */
  lemma {:induction false} StreamAllRequests(v: View, s: Scanner, ws: seq<Window>, blockSize: BlockSize)
    requires v.mem.Valid() && s.IsReady()
    ensures forall r | r in StreamAll(v, s, ws, blockSize).requests :: ReadInside(ws, r, blockSize, s.PatternSize())
    decreases |ws|
  {
    if ws != [] {
      var init, last := ws[..|ws| - 1], ws[|ws| - 1];
      StreamAllRequests(v, s, init, blockSize);
      StreamRequests(v, s, last.lo, last.hi, blockSize);
      var x := StreamAll(v, s, init, blockSize).requests;
      var y := Stream(v, s, last.lo, last.hi, blockSize).requests;
      assert StreamAll(v, s, ws, blockSize).requests == x + y;
      forall r | r in x + y
        ensures ReadInside(ws, r, blockSize, s.PatternSize())
      {
        if r in x {
          var i :| 0 <= i < |init| && Covers(init[i], r.addr, r.size);
          assert ws[i] == init[i];
        } else {
          var k :| 0 <= k < |y| && y[k] == r;
          assert Covers(ws[|ws| - 1], r.addr, r.size);
        }
      }
    }
  }
  // --------------------------------------------------------- the region walk

  function End(r: RegionInfo): nat {
    r.start + r.size
  }

  /** The queries of a walk from `current`: none when `current` is at or
      past `end`; otherwise the first at `current`, each next one at the end
      of the region found for the one before (which lies further on), all
      below `end`; the last one failed, or its region reaches `end`, or its
      region does not lie past it. */
  predicate Chained(query: Querier, qs: seq<nat>, current: nat, end: nat) {
    && (qs == [] <==> end <= current)
    && (qs != [] ==> qs[0] == current)
    && (forall i | 0 <= i < |qs| :: current <= qs[i] < end)
    && (forall i | 0 <= i < |qs| - 1 ::
          query(qs[i]).Some? && qs[i] < End(query(qs[i]).value) == qs[i + 1])
    && (qs != [] ==>
          var r := query(qs[|qs| - 1]);
          r.None? || end <= End(r.value) || End(r.value) <= qs[|qs| - 1])
  }

  lemma {:induction false} RegionsQueries(query: Querier, cfg: Config, current: nat)
    ensures Chained(query, Regions(query, cfg, current).queries, current, cfg.end)
    decreases cfg.end - current
  {
    if current < cfg.end && query(current).Some? && current < End(query(current).value) {
      var next := End(query(current).value);
      RegionsQueries(query, cfg, next);
      assert Regions(query, cfg, current).queries == [current] + Regions(query, cfg, next).queries;
      ChainedCons(query, current, Regions(query, cfg, next).queries, cfg.end);
    }
  }

  lemma ChainedCons(query: Querier, current: nat, rest: seq<nat>, end: nat)
    requires current < end && query(current).Some? && current < End(query(current).value)
    requires Chained(query, rest, End(query(current).value), end)
    ensures Chained(query, [current] + rest, current, end)
  {
    var qs := [current] + rest;
    forall i | 0 <= i < |qs| - 1
      ensures query(qs[i]).Some? && qs[i] < End(query(qs[i]).value) == qs[i + 1]
    {
      if i > 0 {
        assert qs[i] == rest[i - 1] && qs[i + 1] == rest[i];
      }
    }
    forall i | 0 <= i < |qs|
      ensures current <= qs[i] < end
    {
      if i > 0 {
        assert qs[i] == rest[i - 1];
      }
    }
    if rest != [] {
      assert qs[|qs| - 1] == rest[|rest| - 1];
    }
  }

  /** Every address of the window reports the flags `f`. */
  predicate Uniform(m: Memory, w: Window, f: Flags) {
    forall k | w.lo <= k < w.hi :: ReportedFlags(m, k) == f
  }

  /** The region `query` reports for `a`, if any, contains `a`, and every
      address in it reports the region's flags in `m`. */
  ghost predicate FaithfulAt(query: Querier, m: Memory, a: nat) {
    query(a).Some? ==>
      query(a).value.start <= a < End(query(a).value)
      && Uniform(m, Window(query(a).value.start, End(query(a).value)), query(a).value.flags)
  }

  ghost predicate Faithful(query: Querier, m: Memory) {
    forall a: nat :: FaithfulAt(query, m, a)
  }

  /** The region query of a view is faithful to its memory. */
  lemma QueryFaithful(v: View)
    requires v.mem.Valid()
    ensures Faithful(QueryOf(v), v.mem)
  {
    forall a: nat
      ensures FaithfulAt(QueryOf(v), v.mem, a)
    {
      assert QueryOf(v)(a) == v.QueryAt(a);
    }
  }

  /** The windows of a walk from `current` with a faithful query are
      ordered, lie inside `[current, end)`, and every address in them
      reports the configured flags. */
  lemma {:induction false} RegionsWindows(query: Querier, m: Memory, cfg: Config, current: nat)
    requires Faithful(query, m)
    ensures var ws := Regions(query, cfg, current).windows;
      && Ordered(ws)
      && (forall i | 0 <= i < |ws| :: current <= ws[i].lo && ws[i].hi <= cfg.end && Uniform(m, ws[i], cfg.flags))
    decreases cfg.end - current
  {
    if current < cfg.end && query(current).Some? {
      var r := query(current).value;
      var next := End(r);
      assert FaithfulAt(query, m, current);
      RegionsWindows(query, m, cfg, next);
      var rest := Regions(query, cfg, next).windows;
      assert Regions(query, cfg, current).windows == WindowsOf(cfg, current, r) + rest;
      if r.flags == cfg.flags {
        var w := Window(current, Min(cfg.end, next));
        assert WindowsOf(cfg, current, r) == [w];
        assert Uniform(m, w, cfg.flags) by {
          assert Uniform(m, Window(r.start, next), r.flags);
        }
        OrderedCons(w, rest);
        InsideCons(m, w, rest, current, cfg.end, cfg.flags);
      } else {
        assert WindowsOf(cfg, current, r) + rest == rest;
      }
    }
  }

  /** A window inside `[lo, hi)` with flags `f`, put before windows that
      are too, gives windows that all are. */
  lemma InsideCons(m: Memory, w: Window, rest: seq<Window>, lo: nat, hi: nat, f: Flags)
    requires lo <= w.lo && w.hi <= hi && Uniform(m, w, f)
    requires forall i | 0 <= i < |rest| :: lo <= rest[i].lo && rest[i].hi <= hi && Uniform(m, rest[i], f)
    ensures var ws := [w] + rest;
      forall i | 0 <= i < |ws| :: lo <= ws[i].lo && ws[i].hi <= hi && Uniform(m, ws[i], f)
  {
    var ws := [w] + rest;
    forall i | 1 <= i < |ws|
      ensures lo <= ws[i].lo && ws[i].hi <= hi && Uniform(m, ws[i], f)
    {
      assert ws[i] == rest[i - 1];
    }
  }

  lemma OrderedCons(w: Window, rest: seq<Window>)
    requires w.lo < w.hi && Ordered(rest)
    requires forall i | 0 <= i < |rest| :: w.hi <= rest[i].lo
    ensures Ordered([w] + rest)
  {
    var ws := [w] + rest;
    forall i, j | 0 <= i < j < |ws|
      ensures ws[i].hi <= ws[j].lo
    {
      assert ws[j] == rest[j - 1];
      if i > 0 {
        assert ws[i] == rest[i - 1];
      }
    }
    forall i | 0 <= i < |ws|
      ensures ws[i].lo < ws[i].hi
    {
      if i > 0 {
        assert ws[i] == rest[i - 1];
      }
    }
  }

  /** Every address of a window that reports readable flags is readable. */
  lemma UniformReadable(m: Memory, w: Window, f: Flags)
    requires m.Valid() && w.lo <= w.hi && Uniform(m, w, f) && f.Prot? && f.read
    ensures m.Readable(w.lo, w.hi - w.lo)
  {
    forall k | w.lo <= k < w.hi
      ensures k in m.prot && m.prot[k].Prot? && m.prot[k].read
    {
      assert ReportedFlags(m, k) == f;
    }
  }
  /** No mapping starts strictly inside the window. */
  predicate Whole(m: Memory, w: Window) {
    forall k | w.lo < k < w.hi :: !m.Splits(k)
  }

  /** Every window of a walk from `current` lies inside one mapping when
      the query's regions do. */
  lemma {:induction false} RegionsWhole(query: Querier, m: Memory, cfg: Config, current: nat)
    requires Runs(query, m)
    ensures forall w | w in Regions(query, cfg, current).windows :: Whole(m, w)
    decreases cfg.end - current
  {
    if current < cfg.end && query(current).Some? && current < End(query(current).value) {
      var r := query(current).value;
      var next := End(r);
      RegionsWhole(query, m, cfg, next);
      var rest := Regions(query, cfg, next).windows;
      var ws := WindowsOf(cfg, current, r) + rest;
      assert Regions(query, cfg, current).windows == ws;
      assert RunAt(query, m, current);
      forall w | w in ws
        ensures Whole(m, w)
      {
        if w !in rest {
          assert r.start <= w.lo && w.hi <= End(r);
        }
      }
    }
  }

  /** A stretch mapped with the configured flags that starts inside the
      region `r` found at `current` and crosses the start of no mapping ends
      inside `r` too, so the window of `r` covers it. */
  lemma CoverHere(m: Memory, cfg: Config, current: nat, r: RegionInfo, a: nat, n: nat)
    requires m.Valid() && r.start <= current <= a < End(r) && 0 < n && a + n <= cfg.end
    requires forall k | a <= k < a + n :: k in m.prot && m.prot[k] == cfg.flags
    requires forall k | a < k < a + n :: !m.Splits(k)
    requires current in m.prot ==> r.flags == m.prot[current]
    requires forall k | r.start <= k < End(r) :: m.CellAt(k) == m.CellAt(current)
    requires End(r) < Limit ==> m.CellAt(End(r)) != m.CellAt(current) || m.Splits(End(r))
    ensures WindowsOf(cfg, current, r) == [Window(current, Min(cfg.end, End(r)))]
    ensures Covers(Window(current, Min(cfg.end, End(r))), a, n)
  {
    assert m.CellAt(a) == m.CellAt(current) == Mapped(cfg.flags);
    assert a + n - 1 in m.prot;
    assert m.CellAt(End(r)) != Mapped(cfg.flags) || m.Splits(End(r)) || End(r) >= Limit;
  }

  /** One unfolding of the walk at a region that lies past `current`. */
  lemma RegionsStep(query: Querier, cfg: Config, current: nat)
    requires current < cfg.end && query(current).Some? && current < End(query(current).value)
    ensures var r := query(current).value;
      Regions(query, cfg, current).windows == WindowsOf(cfg, current, r) + Regions(query, cfg, End(r)).windows
  {
  }

  /** The region `query` reports for `a`, if any, is a run of addresses
      like `a`, with the protection of `a` when it is mapped, that crosses
      the start of no mapping and stops only where the protection changes or
      another mapping starts. */
  ghost predicate RunAt(query: Querier, m: Memory, a: nat) {
    query(a).Some? ==>
      var r := query(a).value;
      && (a in m.prot ==> r.flags == m.prot[a])
      && (forall k | r.start <= k < End(r) :: m.CellAt(k) == m.CellAt(a))
      && (forall k | r.start < k < End(r) :: !m.Splits(k))
      && (End(r) < Limit ==> m.CellAt(End(r)) != m.CellAt(a) || m.Splits(End(r)))
  }

  ghost predicate Runs(query: Querier, m: Memory) {
    forall a: nat :: RunAt(query, m, a)
  }

  /** `query` answers for `a` when it is mapped, and for every address
      below the top of the address space when it reports free regions. */
  ghost predicate AnswersAt(query: Querier, m: Memory, reportsFree: bool, a: nat) {
    a < Limit && (a in m.prot || reportsFree) ==> query(a).Some?
  }

  ghost predicate Answers(query: Querier, m: Memory, reportsFree: bool) {
    forall a: nat :: AnswersAt(query, m, reportsFree, a)
  }

  /** The region query of a view reports runs that stay inside one mapping,
      and answers whenever the target is reachable. */
  lemma QueryRuns(v: View)
    requires v.mem.Valid()
    ensures Runs(QueryOf(v), v.mem)
    ensures v.reachable ==> Answers(QueryOf(v), v.mem, v.reportsFree)
  {
    forall a: nat
      ensures RunAt(QueryOf(v), v.mem, a)
      ensures v.reachable ==> AnswersAt(QueryOf(v), v.mem, v.reportsFree, a)
    {
      assert QueryOf(v)(a) == v.QueryAt(a);
      if v.QueryAt(a).Some? {
        var r := v.QueryAt(a).value;
        forall k | r.start <= k < End(r)
          ensures v.mem.CellAt(k) == v.mem.CellAt(a)
        {
        }
      }
    }
  }

  /** The walk from `current` streams a window around every stretch of
      addresses mapped with the configured flags that lies inside the
      configured range and crosses the start of no mapping, unless an
      unanswered query ends the walk first: a region stops only where the
      protection changes or a mapping starts, so the stretch lies inside one
      region. */
  lemma {:induction false} RegionsCover(query: Querier, m: Memory, reportsFree: bool, cfg: Config, current: nat, a: nat, n: nat)
    requires m.Valid() && Faithful(query, m) && Runs(query, m) && Answers(query, m, reportsFree)
    requires current <= a && 0 < n && a + n <= cfg.end
    requires forall k | a <= k < a + n :: k in m.prot && m.prot[k] == cfg.flags
    requires forall k | a < k < a + n :: !m.Splits(k)
    requires reportsFree || m.MappedRange(current, a - current)
    ensures CoveredBy(Regions(query, cfg, current).windows, a, n)
    decreases a - current
  {
    assert query(current).Some? by {
      assert a in m.prot && current < Limit;
      assert current in m.prot || reportsFree;
      assert AnswersAt(query, m, reportsFree, current);
    }
    var r := query(current).value;
    var next := End(r);
    assert FaithfulAt(query, m, current) && RunAt(query, m, current);
    RegionsStep(query, cfg, current);
    var rest := Regions(query, cfg, next).windows;
    var ws := WindowsOf(cfg, current, r) + rest;
    if a < next {
      CoverHere(m, cfg, current, r, a, n);
      assert Covers(ws[0], a, n);
    } else {
      assert reportsFree || m.MappedRange(next, a - next);
      RegionsCover(query, m, reportsFree, cfg, next, a, n);
      var i :| 0 <= i < |rest| && Covers(rest[i], a, n);
      assert ws[|ws| - |rest| + i] == rest[i];
    }
  }

  // ------------------------------------------------------------- the whole scan

  /** Every address `scan` reports holds an occurrence of the pattern inside
      the configured range, on addresses mapped with the configured flags,
      that crosses the start of no mapping (each read stops at its region's
      end); the reports ascend, so none is reported twice. */
  lemma ScanSound(v: View, s: Scanner, cfg: Config)
    requires v.mem.Valid()
    ensures var out := ScanSpec(v, s, cfg);
      && StrictlyAscending(out.results)
      && forall a | a in out.results ::
           && cfg.start <= a && a + s.PatternSize() <= cfg.end && OccursAt(s.pattern, v.mem, a)
           && (forall k | a <= k < a + s.PatternSize() :: k in v.mem.prot && v.mem.prot[k] == cfg.flags)
           && (forall k | a < k < a + s.PatternSize() :: !v.mem.Splits(k))
  {
    if s.IsReady() {
      var ws := Regions(QueryOf(v), cfg, cfg.start).windows;
      var m := s.PatternSize();
      var hits := StreamAll(v, s, ws, cfg.blockSize).results;
      assert ScanSpec(v, s, cfg).results == hits;
      ScanWindows(v, cfg);
      StreamAllSound(v, s, ws, cfg.blockSize);
      forall a | a in hits
        ensures cfg.start <= a && a + m <= cfg.end
        ensures forall k | a <= k < a + m :: k in v.mem.prot && v.mem.prot[k] == cfg.flags
        ensures forall k | a < k < a + m :: !v.mem.Splits(k)
      {
        var i :| 0 <= i < |ws| && Covers(ws[i], a, m);
        assert ws[i] in ws;
        InsideWindow(v.mem, cfg, ws[i], a, m);
      }
    }
  }

  /** The windows of the walk `scan` makes are ordered, lie inside the
      configured range, report the configured flags throughout and each lie
      inside one mapping. */
  lemma ScanWindows(v: View, cfg: Config)
    requires v.mem.Valid()
    ensures var ws := Regions(QueryOf(v), cfg, cfg.start).windows;
      && Ordered(ws)
      && (forall i | 0 <= i < |ws| :: cfg.start <= ws[i].lo && ws[i].hi <= cfg.end && Uniform(v.mem, ws[i], cfg.flags))
      && (forall w | w in ws :: Whole(v.mem, w))
  {
    QueryFaithful(v);
    QueryRuns(v);
    RegionsWindows(QueryOf(v), v.mem, cfg, cfg.start);
    RegionsWhole(QueryOf(v), v.mem, cfg, cfg.start);
  }

  /** A readable stretch inside a window of the walk lies in the
      configured range, on addresses mapped with the configured flags, and
      crosses the start of no mapping. */
  lemma InsideWindow(m: Memory, cfg: Config, w: Window, a: nat, n: nat)
    requires cfg.start <= w.lo && w.hi <= cfg.end && Uniform(m, w, cfg.flags) && Whole(m, w) && Covers(w, a, n)
    requires m.Readable(a, n)
    ensures cfg.start <= a && a + n <= cfg.end
    ensures forall k | a <= k < a + n :: k in m.prot && m.prot[k] == cfg.flags
    ensures forall k | a < k < a + n :: !m.Splits(k)
  {
    forall k | a <= k < a + n
      ensures k in m.prot && m.prot[k] == cfg.flags
    {
      assert ReportedFlags(m, k) == cfg.flags;
    }
  }

  /** `scan` reports every occurrence of the pattern on addresses mapped
      with the configured, readable flags inside the configured range that
      crosses the start of no mapping, when the target is reachable and no
      unanswered query ends the walk before it: a query that reports free
      regions always answers, and one that does not answers up to the
      occurrence when everything before it is mapped. An occurrence that
      crosses the start of a mapping is never reported (`ScanSound`). */
  lemma ScanComplete(v: View, s: Scanner, cfg: Config, a: nat)
    requires v.mem.Valid() && s.IsReady() && v.reachable
    requires cfg.flags.Prot? && cfg.flags.read
    requires cfg.start <= a && a + s.PatternSize() <= cfg.end
    requires forall k | a <= k < a + s.PatternSize() :: k in v.mem.prot && v.mem.prot[k] == cfg.flags
    requires forall k | a < k < a + s.PatternSize() :: !v.mem.Splits(k)
    requires v.reportsFree || v.mem.MappedRange(cfg.start, a - cfg.start)
    requires OccursAt(s.pattern, v.mem, a)
    ensures a in ScanSpec(v, s, cfg).results
  {
    var query := QueryOf(v);
    var ws := Regions(query, cfg, cfg.start).windows;
    var m := s.PatternSize();
    QueryFaithful(v);
    QueryRuns(v);
    RegionsCover(query, v.mem, v.reportsFree, cfg, cfg.start, a, m);
    RegionsWindows(query, v.mem, cfg, cfg.start);
    var i :| 0 <= i < |ws| && Covers(ws[i], a, m);
    UniformReadable(v.mem, ws[i], cfg.flags);
    StreamAllComplete(v, s, ws, cfg.blockSize, i, a);
  }

  /** Every read `scan` issues asks for at most `block_size +
      pattern_size - 1` bytes inside the configured range, all of them on
      addresses whose region has the configured flags. */
  lemma ScanRequests(v: View, s: Scanner, cfg: Config)
    requires v.mem.Valid()
    ensures forall r | r in ScanSpec(v, s, cfg).requests ::
      && 0 < r.size <= cfg.blockSize + s.PatternSize() - 1
      && cfg.start <= r.addr && r.addr + r.size <= cfg.end
      && forall k | r.addr <= k < r.addr + r.size :: ReportedFlags(v.mem, k) == cfg.flags
  {
    if s.IsReady() {
      var query := QueryOf(v);
      var ws := Regions(query, cfg, cfg.start).windows;
      QueryFaithful(v);
      RegionsWindows(query, v.mem, cfg, cfg.start);
      StreamAllRequests(v, s, ws, cfg.blockSize);
      forall r | r in ScanSpec(v, s, cfg).requests
        ensures cfg.start <= r.addr && r.addr + r.size <= cfg.end
        ensures forall k | r.addr <= k < r.addr + r.size :: ReportedFlags(v.mem, k) == cfg.flags
      {
        var i :| 0 <= i < |ws| && Covers(ws[i], r.addr, r.size);
      }
    }
  }

  /** The queries `scan` makes: the first at the configured start, each
      next one at the end of the region found for the one before, all inside
      the configured range; the walk ends with a failed query or with a
      region that reaches the configured end. */
  lemma ScanQueries(v: View, s: Scanner, cfg: Config)
    requires v.mem.Valid() && s.IsReady()
    ensures var qs := ScanSpec(v, s, cfg).queries;
      && Chained(QueryOf(v), qs, cfg.start, cfg.end)
      && (qs != [] ==> var r := QueryOf(v)(qs[|qs| - 1]); r.None? || cfg.end <= End(r.value))
  {
    var query := QueryOf(v);
    RegionsQueries(query, cfg, cfg.start);
    QueryFaithful(v);
    var qs := ScanSpec(v, s, cfg).queries;
    if qs != [] {
      assert FaithfulAt(query, v.mem, qs[|qs| - 1]);
    }
  }

  /** A scan of an unreachable target makes one failed query and reports
      nothing. */
  lemma ScanUnreachable(v: View, s: Scanner, cfg: Config)
    requires v.mem.Valid() && s.IsReady() && !v.reachable
    ensures ScanSpec(v, s, cfg) == Outcome([], if cfg.start < cfg.end then [cfg.start] else [], [])
  {
    assert QueryOf(v)(cfg.start) == None;
  }
}
