/** `memory_scanner`: walks an accessor's address space region by region,
    keeps the regions whose protection equals the configured flags, clips
    each to the configured range and streams it through the pattern strategy
    in overlapping blocks. */
module MemoryScanner {
  import opened Word
  import opened ProtFlags
  import opened Common
  import opened Os
  import opened Access
  import opened Pattern
  import opened ScanConfig

  function Min(a: nat, b: nat): nat {
    if a < b then a else b
  }

  function Max(a: nat, b: nat): nat {
    if a < b then b else a
  }

  /** One `read(addr, buffer, size)` the scanner issues. */
  datatype Request = Request(addr: nat, size: nat)

  /** What streaming produces: the reported addresses and the reads issued,
      each in order. */
  datatype Blocks = Blocks(results: seq<nat>, requests: seq<Request>) {
    function Then(b: Blocks): Blocks {
      Blocks(results + b.results, requests + b.requests)
    }
  }

  /** A clipped part `[lo, hi)` of a region that has the configured flags. */
  datatype Window = Window(lo: nat, hi: nat)

  /** What the region walk does: the windows it streams and the addresses
      it hands to `query_region`, each in order. */
  datatype RegionWalk = RegionWalk(windows: seq<Window>, queries: seq<nat>)

  /** What `scan` returns and does. */
  datatype Outcome = Outcome(results: seq<nat>, queries: seq<nat>, requests: seq<Request>)

  /** In-buffer offsets turned into addresses of the block read at `base`. */
  function Shift(hits: seq<nat>, base: nat): (r: seq<nat>)
    ensures |r| == |hits| && forall i | 0 <= i < |hits| :: r[i] == hits[i] + base
  {
    seq(|hits|, i requires 0 <= i < |hits| => hits[i] + base)
  }

  /** The addresses reported for the block of `n` bytes read at `pos`:
      none when the read fails. */
  function Block(v: View, s: Scanner, pos: nat, n: nat): seq<nat>
    requires v.mem.Valid()
  {
    if v.ReadOk(pos, n) then Shift(s.ScanAll(v.mem.BytesAt(pos, n)), pos) else []
  }

  /** The block stream over the window `[pos, end)`: a read of
      `min(block_size + pattern_size - 1, end - pos)` bytes at every
      `pos`, `pos + block_size`, ... below `end`. */
  function Stream(v: View, s: Scanner, pos: nat, end: nat, blockSize: BlockSize): (r: Blocks)
    requires v.mem.Valid() && s.IsReady()
    ensures r.requests == [] <==> pos >= end
    ensures r.requests == [] ==> r.results == []
    ensures forall q | q in r.requests :: pos <= q.addr < end && 0 < q.size && q.addr + q.size <= end
    decreases end - pos
  {
    if pos >= end then Blocks([], [])
    else
      var n := Min(blockSize + s.PatternSize() - 1, end - pos);
      Blocks(Block(v, s, pos, n), [Request(pos, n)]).Then(Stream(v, s, pos + blockSize, end, blockSize))
  }

  /** The block streams of the windows `ws`, one after the other. */
  function StreamAll(v: View, s: Scanner, ws: seq<Window>, blockSize: BlockSize): (r: Blocks)
    requires v.mem.Valid() && s.IsReady()
    ensures r.requests == [] <==> forall w | w in ws :: w.hi <= w.lo
    ensures r.requests == [] ==> r.results == []
  {
    if ws == [] then Blocks([], [])
    else StreamAll(v, s, ws[..|ws| - 1], blockSize).Then(Stream(v, s, ws[|ws| - 1].lo, ws[|ws| - 1].hi, blockSize))
  }

  /** The window streamed for the region `r` found at `current`: its part
      inside the configured range, when its flags are the configured ones. */
  function WindowsOf(cfg: Config, current: nat, r: RegionInfo): seq<Window> {
    if r.flags == cfg.flags then [Window(Max(current, r.start), Min(cfg.end, r.start + r.size))] else []
  }

  /** A region query, as a function of the queried address. */
  type Querier = nat -> Option<RegionInfo>

  /** The region query of the view `v`. */
  ghost function QueryOf(v: View): Querier {
    (a: nat) => if v.mem.Valid() then v.QueryAt(a) else None
  }

  /** The region walk from `current` on: it stops at the configured end or
      after the first failed query, and otherwise goes on at the end of the
      region found. A region query always reports a region that contains
      the queried address (`QueryContains`); the walk also stops on one
      that does not, where the loop would not advance. */
  function Regions(query: Querier, cfg: Config, current: nat): (r: RegionWalk)
    ensures r.queries != [] <==> current < cfg.end
    ensures |r.windows| <= |r.queries|
    decreases cfg.end - current
  {
    if current >= cfg.end then RegionWalk([], [])
    else match query(current)
      case None => RegionWalk([], [current])
      case Some(r) =>
        if r.start + r.size <= current then RegionWalk([], [current]) else
        var rest := Regions(query, cfg, r.start + r.size);
        RegionWalk(WindowsOf(cfg, current, r) + rest.windows, [current] + rest.queries)
  }

  /** `scan(scanner, config)` on the view `v` of the accessor. */
  ghost function ScanSpec(v: View, s: Scanner, cfg: Config): (r: Outcome)
    requires v.mem.Valid()
    ensures !s.IsReady() ==> r == Outcome([], [], [])
    ensures s.IsReady() ==> (r.queries != [] <==> cfg.start < cfg.end)
    ensures r.requests == [] ==> r.results == []
  {
    if !s.IsReady() then Outcome([], [], [])
    else
      var walk := Regions(QueryOf(v), cfg, cfg.start);
      var blocks := StreamAll(v, s, walk.windows, cfg.blockSize);
      Outcome(blocks.results, walk.queries, blocks.requests)
  }

  /** `memory_scanner`, bound to one accessor. */
  class MemoryScanner {
    const accessor: DataAccessor

    constructor (accessor: DataAccessor)
      ensures this.accessor == accessor
    {
      this.accessor := accessor;
    }

    /** `scan(scanner, config)`. A local accessor faults on unreadable
        memory, so a local scan must look for readable regions (or for
        INVALID, which no region has). */
    method Scan(scanner: Scanner, config: Config) returns (results: seq<nat>, ghost queries: seq<nat>, ghost requests: seq<Request>)
      requires accessor.Valid()
      requires accessor.backend.Local? ==> config.flags.Invalid? || config.flags.read
      ensures results == ScanSpec(accessor.Observed(), scanner, config).results
      ensures !scanner.IsReady() ==> results == []
      ensures Outcome(results, queries, requests) == ScanSpec(accessor.Observed(), scanner, config)
      ensures !scanner.IsReady() ==> queries == [] && requests == []
    {
      results, queries, requests := [], [], [];
      if !scanner.IsReady() {
        return;
      }
      ghost var v := accessor.Observed();
      ghost var query := QueryOf(v);
      ghost var total := Regions(query, config, config.start);
      ghost var windows: seq<Window> := [];
      var current: nat := config.start;
      while current < config.end
        invariant windows + Regions(query, config, current).windows == total.windows
        invariant queries + Regions(query, config, current).queries == total.queries
        invariant Blocks(results, requests) == StreamAll(v, scanner, windows, config.blockSize)
        decreases config.end - current
      {
        var ok, region := QueryRegion(current, query);
        if !ok {
          ghost var queries0 := queries;
          queries := queries + [current];
          RegionsStop(query, config, current, windows, queries0, queries, total);
          return;
        }
        ghost var windows0, queries0, current0 := windows, queries, current;
        ghost var added := WindowsOf(config, current, region);
        if region.flags == config.flags {
          WindowReadable(v, config, current, region);
          var hits, windowRequests := ScanRegion(scanner, config, current, region);
          ghost var results0, requests0 := results, requests;
          results := results + hits;
          requests := requests + windowRequests;
          windows := windows + added;
          StreamSnoc(v, scanner, config.blockSize, windows0, added[0], results0, requests0,
                     hits, windowRequests, windows, results, requests);
        } else {
          assert added == [] && windows == windows0 + added;
        }
        queries := queries + [current];
        current := region.start + region.size;
        RegionsAdvance(query, config, current0, region, windows0, queries0, added, windows, queries, current, total);
      }
      RegionsEnd(query, config, current, windows, queries, total);
    }

    /** The region query at the head of the loop of `scan`; a region found
        contains the queried address. */
    method QueryRegion(current: nat, ghost query: Querier) returns (ok: bool, region: RegionInfo)
      requires accessor.Valid() && query == QueryOf(accessor.Observed())
      ensures ok ==> query(current) == Some(region) && current < region.start + region.size
      ensures !ok ==> query(current).None?
    {
      ok, region := accessor.QueryRegion(current);
    }

    /** The part of the loop of `scan` for a region `[.., regionEnd)` found
        at `current` whose flags are the configured ones: the window from
        `current` to the nearer of the configured end and the region's end
        is streamed. */
    method ScanRegion(scanner: Scanner, config: Config, current: nat, region: RegionInfo)
      returns (hits: seq<nat>, ghost requests: seq<Request>)
      requires accessor.Valid() && scanner.IsReady()
      requires Max(current, region.start) == current < Min(config.end, region.start + region.size)
      requires accessor.backend.Local? ==>
        accessor.space.mem.Readable(current, Min(config.end, region.start + region.size) - current)
      ensures hits == Stream(accessor.Observed(), scanner, current, Min(config.end, region.start + region.size), config.blockSize).results
      ensures Blocks(hits, requests) == Stream(accessor.Observed(), scanner, current, Min(config.end, region.start + region.size), config.blockSize)
    {
      var scanStart := Max(current, region.start);
      var scanEnd := Min(config.end, region.start + region.size);
      hits, requests := ScanWindow(scanner, scanStart, scanEnd, config.blockSize);
    }

    /** The inner loop of `scan`: the overlapping block stream over the
        window `[scanStart, scanEnd)`. */
    method ScanWindow(scanner: Scanner, scanStart: nat, scanEnd: nat, blockSize: BlockSize)
      returns (hits: seq<nat>, ghost requests: seq<Request>)
      requires accessor.Valid() && scanner.IsReady() && scanStart <= scanEnd
      requires accessor.backend.Local? ==> accessor.space.mem.Readable(scanStart, scanEnd - scanStart)
      ensures hits == Stream(accessor.Observed(), scanner, scanStart, scanEnd, blockSize).results
      ensures Blocks(hits, requests) == Stream(accessor.Observed(), scanner, scanStart, scanEnd, blockSize)
    {
      ghost var v := accessor.Observed();
      var overlap := scanner.PatternSize() - 1;
      var buffer := new byte[blockSize + overlap];
      hits, requests := [], [];
      var readPos: nat := scanStart;
      while readPos < scanEnd
        invariant scanStart <= readPos
        invariant Blocks(hits, requests).Then(Stream(v, scanner, readPos, scanEnd, blockSize)) == Stream(v, scanner, scanStart, scanEnd, blockSize)
        decreases scanEnd - readPos
      {
        var size := Min(blockSize + overlap, scanEnd - readPos);
        var ok := accessor.Read(readPos, buffer, size);
        var found: seq<nat> := [];
        if ok {
          found := scanner.ScanAll(buffer[..size]);
        }
        ghost var hits0, requests0, pos0 := hits, requests, readPos;
        hits := Report(hits, found, readPos);
        requests := requests + [Request(readPos, size)];
        readPos := readPos + blockSize;
        StreamAdvance(v, scanner, pos0, scanEnd, blockSize, size, ok, found, hits0, requests0,
                      hits, requests, readPos, Stream(v, scanner, scanStart, scanEnd, blockSize));
      }
      assert hits + [] == hits && requests + [] == requests;
    }
  }

  /** The callback `scan` hands to `scan_all`: every in-buffer offset, in
      the order visited, is appended to `results` as an address of the block
      read at `readPos`. */
  method Report(results: seq<nat>, found: seq<nat>, readPos: nat) returns (out: seq<nat>)
    ensures out == results + Shift(found, readPos)
  {
    out := results;
    var j := 0;
    while j < |found|
      invariant 0 <= j <= |found|
      invariant out == results + Shift(found[..j], readPos)
    {
      out := out + [found[j] + readPos];
      j := j + 1;
      assert Shift(found[..j], readPos) == Shift(found[..j - 1], readPos) + [found[j - 1] + readPos];
    }
    assert found[..j] == found;
  }

  /** The loop step of `ScanWindow`: the block at `pos` contributes the
      in-buffer offsets `found` the strategy reports for it, shifted to
      addresses, and its read request. */
  lemma StreamAdvance(v: View, s: Scanner, pos: nat, end: nat, blockSize: BlockSize, n: nat, ok: bool,
                      found: seq<nat>, hits: seq<nat>, requests: seq<Request>,
                      hits': seq<nat>, requests': seq<Request>, pos': nat, total: Blocks)
    requires v.mem.Valid() && s.IsReady() && pos < end
    requires n == Min(blockSize + s.PatternSize() - 1, end - pos)
    requires ok == v.ReadOk(pos, n)
    requires ok ==> found == s.ScanAll(v.mem.BytesAt(pos, n))
    requires !ok ==> found == []
    requires Blocks(hits, requests).Then(Stream(v, s, pos, end, blockSize)) == total
    requires hits' == hits + Shift(found, pos) && requests' == requests + [Request(pos, n)] && pos' == pos + blockSize
    ensures Blocks(hits', requests').Then(Stream(v, s, pos', end, blockSize)) == total
  {
    var head := Blocks(Block(v, s, pos, n), [Request(pos, n)]);
    StreamStep(v, s, pos, end, blockSize);
    BlockFound(v, s, pos, n, ok, found);
    ThenAssoc(Blocks(hits, requests), head, Stream(v, s, pos', end, blockSize));
  }

  /** One unfolding of the block stream. */
  lemma StreamStep(v: View, s: Scanner, pos: nat, end: nat, blockSize: BlockSize)
    requires v.mem.Valid() && s.IsReady() && pos < end
    ensures var n := Min(blockSize + s.PatternSize() - 1, end - pos);
      Stream(v, s, pos, end, blockSize) == Blocks(Block(v, s, pos, n), [Request(pos, n)]).Then(Stream(v, s, pos + blockSize, end, blockSize))
  {
  }

  /** The addresses of a block are the strategy's offsets in the bytes read,
      shifted by the read position; a failed read reports none. */
  lemma BlockFound(v: View, s: Scanner, pos: nat, n: nat, ok: bool, found: seq<nat>)
    requires v.mem.Valid() && ok == v.ReadOk(pos, n)
    requires ok ==> found == s.ScanAll(v.mem.BytesAt(pos, n))
    requires !ok ==> found == []
    ensures Block(v, s, pos, n) == Shift(found, pos)
  {
  }

  lemma ThenAssoc(a: Blocks, b: Blocks, c: Blocks)
    ensures a.Then(b.Then(c)) == a.Then(b).Then(c)
  {
    assert a.results + (b.results + c.results) == a.results + b.results + c.results;
    assert a.requests + (b.requests + c.requests) == a.requests + b.requests + c.requests;
  }

  /** Appending a window's stream to the streams of the windows before it. */
  lemma StreamSnoc(v: View, s: Scanner, blockSize: BlockSize, ws: seq<Window>, w: Window,
                   results: seq<nat>, requests: seq<Request>, hits: seq<nat>, windowRequests: seq<Request>,
                   ws': seq<Window>, results': seq<nat>, requests': seq<Request>)
    requires v.mem.Valid() && s.IsReady()
    requires Blocks(results, requests) == StreamAll(v, s, ws, blockSize)
    requires Blocks(hits, windowRequests) == Stream(v, s, w.lo, w.hi, blockSize)
    requires ws' == ws + [w] && results' == results + hits && requests' == requests + windowRequests
    ensures Blocks(results', requests') == StreamAll(v, s, ws', blockSize)
  {
    assert ws'[..|ws'| - 1] == ws;
  }

  /** The loop step of `Scan` for a region `r` found at `current`. */
  lemma RegionsAdvance(query: Querier, cfg: Config, current: nat, r: RegionInfo, windows: seq<Window>, queries: seq<nat>,
                       added: seq<Window>, windows': seq<Window>, queries': seq<nat>, next: nat, total: RegionWalk)
    requires current < cfg.end && query(current) == Some(r) && current < r.start + r.size
    requires windows + Regions(query, cfg, current).windows == total.windows
    requires queries + Regions(query, cfg, current).queries == total.queries
    requires added == WindowsOf(cfg, current, r) && windows' == windows + added && queries' == queries + [current]
    requires next == r.start + r.size
    ensures windows' + Regions(query, cfg, next).windows == total.windows
    ensures queries' + Regions(query, cfg, next).queries == total.queries
  {
    var rest := Regions(query, cfg, next);
    assert Regions(query, cfg, current) == RegionWalk(WindowsOf(cfg, current, r) + rest.windows, [current] + rest.queries);
    assert windows' + rest.windows == windows + (WindowsOf(cfg, current, r) + rest.windows);
    assert queries' + rest.queries == queries + ([current] + rest.queries);
  }

  /** The walk ends after a failed query, which is the last one made. */
  lemma RegionsStop(query: Querier, cfg: Config, current: nat, windows: seq<Window>, queries: seq<nat>,
                    queries': seq<nat>, total: RegionWalk)
    requires current < cfg.end && query(current).None?
    requires windows + Regions(query, cfg, current).windows == total.windows
    requires queries + Regions(query, cfg, current).queries == total.queries
    requires queries' == queries + [current]
    ensures windows == total.windows && queries' == total.queries
  {
    assert Regions(query, cfg, current) == RegionWalk([], [current]);
    assert windows + [] == windows;
  }

  /** The walk ends once `current` reaches the configured end. */
  lemma RegionsEnd(query: Querier, cfg: Config, current: nat, windows: seq<Window>, queries: seq<nat>, total: RegionWalk)
    requires current >= cfg.end
    requires windows + Regions(query, cfg, current).windows == total.windows
    requires queries + Regions(query, cfg, current).queries == total.queries
    ensures windows == total.windows && queries == total.queries
  {
    assert windows + [] == windows && queries + [] == queries;
  }

  /** The flags a region query reports for address `k` of `m`: its
      protection, or NONE for an unmapped address. */
  function ReportedFlags(m: Memory, k: nat): Flags {
    if k in m.prot then m.prot[k] else NONE
  }

  /** The window of a region whose flags are the configured, readable
      flags starts at `current` and is readable throughout. */
  lemma WindowReadable(v: View, cfg: Config, current: nat, region: RegionInfo)
    requires v.mem.Valid() && current < cfg.end
    requires QueryOf(v)(current) == Some(region) && region.flags == cfg.flags
    ensures Max(current, region.start) == current < Min(cfg.end, region.start + region.size)
    ensures cfg.flags.Invalid? || cfg.flags.read ==> v.mem.Readable(current, Min(cfg.end, region.start + region.size) - current)
  {
    assert v.QueryAt(current) == Some(region);
  }
}
