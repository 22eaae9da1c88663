/**
 * The set-associative cache simulator of Project/CacheLab/csim.c.
 *
 * A cache has 2^(s+1) sets of E lines each (`initialize_cache` allocates
 * `2 << s` sets although only the first 2^s are ever selected). An access
 * splits the address into set bits and tag bits, counts a hit when a valid
 * line of the set carries the tag, and otherwise counts a miss and fills
 * the first invalid line, or, when every line is valid, counts an eviction
 * and refills the line flagged for replacement. Every touched line gets a
 * fresh time stamp, and `update_replace_flag` flags the valid line with the
 * least stamp, so the flagged line is the least recently used one.
 *
 * Addresses are below 2^31 and s + b <= 31, so the `int` shifts and masks
 * of the source never see a sign bit.
 */
module Csim {
  import opened Bits

  /** `0x7fffffff`, the mask both bit extractors shift. */
  const INT_MASK: nat := 0x7fff_ffff
  /** Addresses the model accepts: the non-negative range of a 32-bit `int`. */
  const ADDR_LIMIT: nat := 0x8000_0000

  /** The command-line parameters: 2^s sets selected, E lines per set, 2^b bytes per block. */
  datatype Geometry = Geometry(s: nat, E: nat, b: nat)

  /** The set and tag fields fit in a non-negative `int`. */
  predicate Fits(g: Geometry)
  {
    g.s + g.b <= 31
  }

  /** One cache line: `valid_bit`, `tag_bit`, `replace_flag`, `replace_count`. */
  datatype Line = Line(valid: bool, tag: nat, flag: bool, count: nat)

  /** The cache with the global `hit`/`miss`/`eviction` counters and the time stamp of `main`. */
  datatype Sim = Sim(sets: seq<seq<Line>>, hit: nat, miss: nat, eviction: nat, stamp: nat)

  /** `0x7fffffff >> (31 - k)` is the mask of the k low bits. */
  lemma LowOnes(k: nat)
    requires k <= 31
    ensures Shr(INT_MASK, 31 - k) == Pow2(k) - 1
  {
    Pow2Constants();
    LowMaskShift(k, 31 - k);
  }

  /**
   * `catch_SetBits`: the s bits above the b block-offset bits, that is the
   * block number modulo 2^s, so always a valid set index.
   */
  function SetBits(addr: nat, s: nat, b: nat): (index: nat)
    requires s <= 31
    ensures index == Low(Shr(addr, b), s) && index == (addr / Pow2(b)) % Pow2(s)
    ensures index < Pow2(s)
  {
    LowOnes(s);
    AndLowMask(Shr(addr, b), s);
    ShrLowDivMod(addr, b);
    ShrLowDivMod(Shr(addr, b), s);
    LowBound(Shr(addr, b), s);
    And(Shr(addr, b), Shr(INT_MASK, 31 - s))
  }

  /**
   * `catch_TagBits` as written: the bits above the set bits, masked with
   * `0x7fffffff >> (31 - s - b)`, which keeps only their s + b low bits.
   */
  function TagBitsAsWritten(addr: nat, s: nat, b: nat): (tag: nat)
    requires s + b <= 31
    ensures tag == Low(Shr(addr, s + b), s + b) && tag < Pow2(s + b)
  {
    LowOnes(s + b);
    AndLowMask(Shr(addr, s + b), s + b);
    LowBound(Shr(addr, s + b), s + b);
    And(Shr(addr, s + b), Shr(INT_MASK, 31 - s - b))
  }

  /**
   * The tag with the mask `0x7fffffff >> (s + b)`, which keeps every bit
   * above the set bits: the block number divided by the number of sets.
   */
  function TagBits(addr: nat, s: nat, b: nat): (tag: nat)
    requires addr < ADDR_LIMIT && s + b <= 31
    ensures tag == Shr(addr, s + b) && tag == addr / Pow2(s + b)
  {
    Pow2Constants();
    LowMaskShift(31 - s - b, s + b);
    AndLowMask(Shr(addr, s + b), 31 - s - b);
    ShrBound(addr, 31, s + b);
    LowSmall(Shr(addr, s + b), 31 - s - b);
    ShrLowDivMod(addr, s + b);
    And(Shr(addr, s + b), Shr(INT_MASK, s + b))
  }

  /**
   * With the full tag, two addresses land in the same set with the same
   * tag exactly when they lie in the same block.
   */
  lemma SameLineIffSameBlock(a1: nat, a2: nat, g: Geometry)
    requires Fits(g) && a1 < ADDR_LIMIT && a2 < ADDR_LIMIT
    ensures SetBits(a1, g.s, g.b) == SetBits(a2, g.s, g.b) && TagBits(a1, g.s, g.b) == TagBits(a2, g.s, g.b)
        <==> Shr(a1, g.b) == Shr(a2, g.b)
  {
    ShrShr(a1, g.b, g.s);
    ShrShr(a2, g.b, g.s);
    ShrLow(Shr(a1, g.b), g.s);
    ShrLow(Shr(a2, g.b), g.s);
    assert g.b + g.s == g.s + g.b;
  }

  /**
   * With the tag as written, two addresses of different blocks can share
   * set and tag: for s = b = 1, addresses 0 and 16 both select set 0 with
   * tag 0, although they are blocks 0 and 8.
   */
  lemma TagAliasing()
    ensures SetBits(0, 1, 1) == SetBits(16, 1, 1) && TagBitsAsWritten(0, 1, 1) == TagBitsAsWritten(16, 1, 1)
    ensures Shr(0, 1) == 0 && Shr(16, 1) == 8
    ensures TagBits(16, 1, 1) != TagBits(0, 1, 1)
  {
    assert Shr(16, 1) == 8 && Shr(16, 2) == 4 && Shr(0, 1) == 0 && Shr(0, 2) == 0;
    assert Low(8, 1) == 0 && Low(4, 2) == 0 && Low(0, 1) == 0 && Low(0, 2) == 0;
  }

  /** Every set holds E lines and there are 2^(s+1) sets. */
  predicate Shaped(sim: Sim, g: Geometry)
  {
    |sim.sets| == Pow2(g.s + 1) && forall i :: 0 <= i < |sim.sets| ==> |sim.sets[i]| == g.E
  }

  /**
   * `initialize_cache`: `2 << s` sets of E lines, every line invalid,
   * unflagged and with a zero count; the counters and the stamp start at 0.
   */
  function InitializeCache(g: Geometry): (sim: Sim)
    ensures Shaped(sim, g) && Pow2(g.s) < |sim.sets|
    ensures forall i, j :: 0 <= i < |sim.sets| && 0 <= j < |sim.sets[i]| ==>
      !sim.sets[i][j].valid && !sim.sets[i][j].flag && sim.sets[i][j].count == 0
    ensures sim.hit == 0 && sim.miss == 0 && sim.eviction == 0 && sim.stamp == 0
    ensures SimOk(sim)
  {
    ShlMul(2, g.s);
    Sim(seq(Shl(2, g.s), _ => seq(g.E, _ => Line(false, 0, false, 0))), 0, 0, 0, 0)
  }

  /** The first line at or after i that satisfies p, or |lines| when none does: the scans of `load`. */
  function First(lines: seq<Line>, p: Line -> bool, i: nat): (k: nat)
    requires i <= |lines|
    ensures i <= k <= |lines| && (k < |lines| ==> p(lines[k]))
    ensures forall j :: i <= j < k ==> !p(lines[j])
    decreases |lines| - i
  {
    if i == |lines| || p(lines[i]) then i else First(lines, p, i + 1)
  }

  /** Line m is valid and its stamp is the least among the valid lines: the least recently used line. */
  predicate IsLru(lines: seq<Line>, m: nat)
  {
    && m < |lines| && lines[m].valid
    && forall j :: 0 <= j < |lines| && lines[j].valid ==> lines[m].count <= lines[j].count
  }

  /**
   * The scan of `update_replace_flag` from line i with `min_line` = m: the
   * result is m or a valid line, no later than m in stamp order, and no
   * valid line from i on has a smaller stamp.
   */
  function MinLine(lines: seq<Line>, m: nat, i: nat): (r: nat)
    requires m < |lines| && i <= |lines|
    ensures r < |lines| && (r == m || lines[r].valid) && lines[r].count <= lines[m].count
    ensures forall j :: i <= j < |lines| && lines[j].valid ==> lines[r].count <= lines[j].count
    decreases |lines| - i
  {
    if i == |lines| then m
    else MinLine(lines, if lines[i].valid && lines[m].count > lines[i].count then i else m, i + 1)
  }

  /** The line `update_replace_flag` flags after touching the valid line cur: the least recently used one. */
  function Victim(lines: seq<Line>, cur: nat): (m: nat)
    requires cur < |lines| && lines[cur].valid
    ensures IsLru(lines, m)
  {
    MinLine(lines, cur, 0)
  }

  /** Exactly line m carries the replacement flag. */
  predicate OnlyFlag(lines: seq<Line>, m: nat)
  {
    m < |lines| && forall j :: 0 <= j < |lines| ==> (lines[j].flag <==> j == m)
  }

  /** r is lines with possibly other flags and nothing else changed. */
  predicate SameButFlags(lines: seq<Line>, r: seq<Line>)
  {
    |r| == |lines| && forall j :: 0 <= j < |lines| ==> r[j] == lines[j].(flag := r[j].flag)
  }

  /**
   * `update_replace_flag` after touching the valid line cur: only the flags
   * change, and exactly one line is flagged, the least recently used one.
   */
  function UpdateReplaceFlag(lines: seq<Line>, cur: nat): (r: seq<Line>)
    requires cur < |lines| && lines[cur].valid
    ensures SameButFlags(lines, r)
    ensures exists m :: OnlyFlag(r, m) && IsLru(lines, m)
  {
    var m := Victim(lines, cur);
    var r := seq(|lines|, j requires 0 <= j < |lines| => lines[j].(flag := j == m));
    assert OnlyFlag(r, m);
    r
  }

  /** Line k gets the tag and the stamp, becomes valid, and the flags are recomputed. */
  function Touch(lines: seq<Line>, k: nat, tag: nat, stamp: nat): (r: seq<Line>)
    requires k < |lines|
    ensures |r| == |lines|
    ensures r[k].valid && r[k].tag == tag && r[k].count == stamp
    ensures forall j :: 0 <= j < |lines| && j != k ==>
      r[j].valid == lines[j].valid && r[j].tag == lines[j].tag && r[j].count == lines[j].count
    ensures exists m :: OnlyFlag(r, m) && IsLru(r, m)
  {
    var l := lines[k := Line(true, tag, lines[k].flag, stamp)];
    var r := UpdateReplaceFlag(l, k);
    var m :| OnlyFlag(r, m) && IsLru(l, m);
    assert IsLru(r, m);
    r
  }

  /** Some valid line of the set carries the tag. */
  predicate Cached(lines: seq<Line>, tag: nat)
  {
    exists j :: 0 <= j < |lines| && lines[j].valid && lines[j].tag == tag
  }

  /** Every line of the set is valid. */
  predicate AllValid(lines: seq<Line>)
  {
    forall j :: 0 <= j < |lines| ==> lines[j].valid
  }

  /**
   * `load` on a given set and tag. It counts exactly one hit or miss: a hit
   * exactly when a valid line carries the tag, and an eviction exactly on a
   * miss in a set without an invalid line. Only that set changes, and it
   * keeps its number of lines.
   */
  function Access(sim: Sim, index: nat, tag: nat): (r: Sim)
    requires index < |sim.sets|
    ensures |r.sets| == |sim.sets| && |r.sets[index]| == |sim.sets[index]|
    ensures forall i :: 0 <= i < |sim.sets| && i != index ==> r.sets[i] == sim.sets[i]
    ensures r.hit + r.miss == sim.hit + sim.miss + 1
    ensures r.hit == sim.hit + 1 <==> Cached(sim.sets[index], tag)
    ensures r.eviction == sim.eviction + (if !Cached(sim.sets[index], tag) && AllValid(sim.sets[index]) then 1 else 0)
    ensures r.stamp <= sim.stamp + 1
  {
    var lines := sim.sets[index];
    var h := First(lines, (l: Line) => l.valid && l.tag == tag, 0);
    if h < |lines| then
      sim.(sets := sim.sets[index := Touch(lines, h, tag, sim.stamp + 1)], hit := sim.hit + 1, stamp := sim.stamp + 1)
    else
      var e := First(lines, (l: Line) => !l.valid, 0);
      if e < |lines| then
        sim.(sets := sim.sets[index := Touch(lines, e, tag, sim.stamp + 1)], miss := sim.miss + 1,
             stamp := sim.stamp + 1)
      else
        var f := First(lines, (l: Line) => l.flag, 0);
        if f < |lines| then
          sim.(sets := sim.sets[index := Touch(lines, f, tag, sim.stamp + 1)], miss := sim.miss + 1,
               eviction := sim.eviction + 1, stamp := sim.stamp + 1)
        else
          sim.(miss := sim.miss + 1, eviction := sim.eviction + 1)
  }

  /**
   * What a set keeps between accesses: no valid line has a stamp above the
   * current one, at most one line is flagged and it is the least recently
   * used one, and a set holding a valid line has a flagged line.
   */
  predicate SetOk(lines: seq<Line>, stamp: nat)
  {
    && (forall j :: 0 <= j < |lines| && lines[j].valid ==> lines[j].count <= stamp)
    && (forall j :: 0 <= j < |lines| && lines[j].flag ==> OnlyFlag(lines, j) && IsLru(lines, j))
    && ((exists j :: 0 <= j < |lines| && lines[j].valid) ==> exists j :: 0 <= j < |lines| && lines[j].flag)
  }

  predicate SimOk(sim: Sim)
  {
    forall i :: 0 <= i < |sim.sets| ==> SetOk(sim.sets[i], sim.stamp)
  }

  /** A set whose lines all had a stamp at most s keeps its invariant under a larger stamp. */
  lemma SetOkLater(lines: seq<Line>, s: nat, s': nat)
    requires SetOk(lines, s) && s <= s'
    ensures SetOk(lines, s')
  {
  }

  /** A touched set satisfies the invariant at the stamp it was touched with. */
  lemma TouchOk(lines: seq<Line>, k: nat, tag: nat, stamp: nat)
    requires k < |lines| && stamp >= 1 && SetOk(lines, stamp - 1)
    ensures SetOk(Touch(lines, k, tag, stamp), stamp)
  {
    var r := Touch(lines, k, tag, stamp);
    var m :| OnlyFlag(r, m) && IsLru(r, m);
    forall j | 0 <= j < |r| && r[j].flag
      ensures OnlyFlag(r, j) && IsLru(r, j)
    {
      assert j == m;
    }
  }

  /**
   * Which line a non-empty coherent set touches: the line that hits, else
   * the first invalid line, else the least recently used line.
   */
  lemma AccessLine(sim: Sim, index: nat, tag: nat) returns (k: nat)
    requires SimOk(sim) && index < |sim.sets| && |sim.sets[index]| > 0
    ensures var lines := sim.sets[index];
      && k < |lines|
      && Access(sim, index, tag) == sim.(sets := sim.sets[index := Touch(lines, k, tag, sim.stamp + 1)],
                                         hit := Access(sim, index, tag).hit, miss := Access(sim, index, tag).miss,
                                         eviction := Access(sim, index, tag).eviction, stamp := sim.stamp + 1)
      && (Cached(lines, tag) ==> lines[k].valid && lines[k].tag == tag)
      && (!Cached(lines, tag) && !AllValid(lines) ==> !lines[k].valid && forall j :: 0 <= j < k ==> lines[j].valid)
      && (!Cached(lines, tag) && AllValid(lines) ==> IsLru(lines, k))
  {
    var lines := sim.sets[index];
    var h := First(lines, (l: Line) => l.valid && l.tag == tag, 0);
    var e := First(lines, (l: Line) => !l.valid, 0);
    var f := First(lines, (l: Line) => l.flag, 0);
    if h < |lines| {
      k := h;
    } else if e < |lines| {
      k := e;
      assert !AllValid(lines);
    } else {
      assert lines[0].valid;
      assert SetOk(lines, sim.stamp);
      assert f < |lines|;
      k := f;
    }
  }

  /**
   * An access on a coherent cache with at least one line per set: the
   * stamp advances by one and the cache stays coherent; line k receives
   * the tag and the new stamp, which is larger than every other stamp in
   * the set, and no other line changes its contents. Line k is the line
   * that hit, else the first invalid line, else the least recently used
   * line.
   */
  lemma AccessEffect(sim: Sim, index: nat, tag: nat) returns (k: nat)
    requires SimOk(sim) && index < |sim.sets| && |sim.sets[index]| > 0
    ensures var lines, r := sim.sets[index], Access(sim, index, tag).sets[index];
      && k < |lines| && r[k].valid && r[k].tag == tag && r[k].count == sim.stamp + 1
      && (forall j :: 0 <= j < |lines| && j != k ==>
           r[j].valid == lines[j].valid && r[j].tag == lines[j].tag && r[j].count == lines[j].count
           && (r[j].valid ==> r[j].count < r[k].count))
      && (Cached(lines, tag) ==> lines[k].valid && lines[k].tag == tag)
      && (!Cached(lines, tag) && !AllValid(lines) ==> !lines[k].valid && forall j :: 0 <= j < k ==> lines[j].valid)
      && (!Cached(lines, tag) && AllValid(lines) ==> IsLru(lines, k))
    ensures Access(sim, index, tag).stamp == sim.stamp + 1 && SimOk(Access(sim, index, tag))
  {
    var lines := sim.sets[index];
    k := AccessLine(sim, index, tag);
    assert SetOk(lines, sim.stamp);
    TouchOk(lines, k, tag, sim.stamp + 1);
    var r := Access(sim, index, tag);
    forall i | 0 <= i < |r.sets|
      ensures SetOk(r.sets[i], r.stamp)
    {
      if i != index {
        SetOkLater(sim.sets[i], sim.stamp, r.stamp);
      }
    }
  }

  /** Accessing the same set and tag twice in a row: the second access is a hit. */
  lemma RepeatHits(sim: Sim, index: nat, tag: nat)
    requires SimOk(sim) && index < |sim.sets| && |sim.sets[index]| > 0
    ensures Access(Access(sim, index, tag), index, tag).hit == Access(sim, index, tag).hit + 1
  {
    var k := AccessEffect(sim, index, tag);
    assert Cached(Access(sim, index, tag).sets[index], tag);
  }

  /**
   * Which tag an access compares: `Masked` is `catch_TagBits` as written,
   * `Full` keeps every bit above the set bits.
   */
  datatype TagRule = Masked | Full

  function TagOf(rule: TagRule, addr: nat, g: Geometry): nat
    requires Fits(g) && addr < ADDR_LIMIT
  {
    match rule
    case Masked => TagBitsAsWritten(addr, g.s, g.b)
    case Full => TagBits(addr, g.s, g.b)
  }

  /**
   * `load` of an address: a hit exactly when a valid line of the address's
   * set holds its tag under `rule`. With `Masked` this is the source.
   */
  function Load(sim: Sim, g: Geometry, rule: TagRule, addr: nat): (r: Sim)
    requires Fits(g) && Shaped(sim, g) && addr < ADDR_LIMIT
    ensures Shaped(r, g) && r.hit + r.miss == sim.hit + sim.miss + 1
    ensures r.hit == sim.hit + 1 <==> Cached(sim.sets[SetBits(addr, g.s, g.b)], TagOf(rule, addr, g))
  {
    Pow2Less(g.s);
    Access(sim, SetBits(addr, g.s, g.b), TagOf(rule, addr, g))
  }

  lemma Pow2Less(s: nat)
    ensures Pow2(s) < Pow2(s + 1)
  {
  }

  /**
   * The aliasing the masked tag causes, on one-line sets with s = b = 1:
   * after loading address 0, loading address 16 counts a hit with the tag
   * as written and a miss with the full tag.
   */
  lemma AliasedHit()
    ensures var g, sim := Geometry(1, 1, 1), InitializeCache(Geometry(1, 1, 1));
      && Load(Load(sim, g, Masked, 0), g, Masked, 16).hit == 1
      && Load(Load(sim, g, Full, 0), g, Full, 16).hit == 0
  {
    var g, sim := Geometry(1, 1, 1), InitializeCache(Geometry(1, 1, 1));
    TagAliasing();
    assert !Cached(sim.sets[0], 0);
    var s1 := Load(sim, g, Masked, 0);
    var k := AccessEffect(sim, 0, 0);
    assert s1.sets[0][0] == Access(sim, 0, 0).sets[0][0];
    assert Cached(s1.sets[0], 0);
    var t1 := Load(sim, g, Full, 0);
    assert t1 == s1;
    AccessMissHits(sim, 0, 0);
    assert TagBits(16, 1, 1) == 4 by {
      assert Shr(16, 2) == 4;
    }
    assert !Cached(t1.sets[0], 4) by {
      assert |t1.sets[0]| == 1;
      assert t1.sets[0][0].tag == 0;
    }
    AccessMissHits(t1, 0, 4);
  }

  /**
   * The same trace replayed: `L 0` then `L 16` with s = E = b = 1 counts
   * one miss and one hit as written, and two misses with the full tag.
   */
  lemma AliasedReplay()
    ensures var g, sim := Geometry(1, 1, 1), InitializeCache(Geometry(1, 1, 1));
      var trace := [TraceLine(' ', 'L', 0), TraceLine(' ', 'L', 16)];
      && Replay(sim, g, Masked, trace).hit == 1 && Replay(sim, g, Masked, trace).miss == 1
      && Replay(sim, g, Full, trace).hit == 0 && Replay(sim, g, Full, trace).miss == 2
  {
    var g, sim := Geometry(1, 1, 1), InitializeCache(Geometry(1, 1, 1));
    var trace := [TraceLine(' ', 'L', 0), TraceLine(' ', 'L', 16)];
    AliasedHit();
    ReplayTwo(sim, g, Masked, trace);
    ReplayTwo(sim, g, Full, trace);
  }

  /** A two-line trace of loads is two loads in a row. */
  lemma ReplayTwo(sim: Sim, g: Geometry, rule: TagRule, trace: seq<TraceLine>)
    requires Fits(g) && Shaped(sim, g) && |trace| == 2
    requires trace[0].col0 != 'I' && trace[0].op == 'L' && trace[1].col0 != 'I' && trace[1].op == 'L'
    requires trace[0].addr < ADDR_LIMIT && trace[1].addr < ADDR_LIMIT
    ensures Replay(sim, g, rule, trace) == Load(Load(sim, g, rule, trace[0].addr), g, rule, trace[1].addr)
  {
    var s1 := Step(sim, g, rule, trace[0]);
    var s2 := Step(s1, g, rule, trace[1]);
    assert trace[1..][1..] == [];
    assert Replay(s1, g, rule, trace[1..]) == Replay(s2, g, rule, []);
  }

  /** A miss leaves the hit count alone. */
  lemma AccessMissHits(sim: Sim, index: nat, tag: nat)
    requires index < |sim.sets| && !Cached(sim.sets[index], tag)
    ensures Access(sim, index, tag).hit == sim.hit
  {
    var lines := sim.sets[index];
    var h := First(lines, (l: Line) => l.valid && l.tag == tag, 0);
    if h < |lines| {
      assert false;
    }
  }

  /** `store` is a `load`. */
  function Store(sim: Sim, g: Geometry, rule: TagRule, addr: nat): (r: Sim)
    requires Fits(g) && Shaped(sim, g) && addr < ADDR_LIMIT
    ensures Shaped(r, g) && r.hit + r.miss == sim.hit + sim.miss + 1
    ensures r.hit == sim.hit + 1 <==> Cached(sim.sets[SetBits(addr, g.s, g.b)], TagOf(rule, addr, g))
  {
    Load(sim, g, rule, addr)
  }

  /** One line of a trace: its first two characters and the address `sscanf` reads after them. */
  datatype TraceLine = TraceLine(col0: char, op: char, addr: nat)

  /** The number of cache accesses the `main` loop makes for a trace line. */
  function Accesses(t: TraceLine): nat
  {
    if t.col0 == 'I' then 0
    else if t.op == 'S' || t.op == 'L' then 1
    else if t.op == 'M' then 2
    else 0
  }

  /**
   * One iteration of the `main` loop: instruction loads are skipped, `S` is
   * a store, `L` a load, `M` a load then a store, anything else is ignored.
   */
  function Step(sim: Sim, g: Geometry, rule: TagRule, t: TraceLine): (r: Sim)
    requires Fits(g) && Shaped(sim, g) && t.addr < ADDR_LIMIT
    ensures Shaped(r, g) && r.hit + r.miss == sim.hit + sim.miss + Accesses(t)
  {
    if t.col0 == 'I' then sim
    else match t.op
      case 'S' => Store(sim, g, rule, t.addr)
      case 'L' => Load(sim, g, rule, t.addr)
      case 'M' => Store(Load(sim, g, rule, t.addr), g, rule, t.addr)
      case _ => sim
  }

  /** The `main` loop over a trace. */
  function Replay(sim: Sim, g: Geometry, rule: TagRule, trace: seq<TraceLine>): (r: Sim)
    requires Fits(g) && Shaped(sim, g) && forall i :: 0 <= i < |trace| ==> trace[i].addr < ADDR_LIMIT
    ensures Shaped(r, g)
    decreases |trace|
  {
    if trace == [] then sim else Replay(Step(sim, g, rule, trace[0]), g, rule, trace[1..])
  }

  /** The total number of cache accesses of a trace. */
  function TotalAccesses(trace: seq<TraceLine>): nat
  {
    if trace == [] then 0 else Accesses(trace[0]) + TotalAccesses(trace[1..])
  }

  /**
   * Over a whole trace the hit and miss counters together grow by the
   * number of accesses the trace makes, and the cache stays coherent.
   */
  lemma {:induction false} ReplayCounts(sim: Sim, g: Geometry, rule: TagRule, trace: seq<TraceLine>)
    requires Fits(g) && Shaped(sim, g) && SimOk(sim)
    requires forall i :: 0 <= i < |trace| ==> trace[i].addr < ADDR_LIMIT
    decreases |trace|
    ensures Replay(sim, g, rule, trace).hit + Replay(sim, g, rule, trace).miss == sim.hit + sim.miss + TotalAccesses(trace)
    ensures SimOk(Replay(sim, g, rule, trace))
  {
    if trace != [] {
      var s1 := Step(sim, g, rule, trace[0]);
      StepOk(sim, g, rule, trace[0]);
      ReplayCounts(s1, g, rule, trace[1..]);
      assert Replay(sim, g, rule, trace) == Replay(s1, g, rule, trace[1..]);
    }
  }

  /** A trace step keeps the cache coherent. */
  lemma StepOk(sim: Sim, g: Geometry, rule: TagRule, t: TraceLine)
    requires Fits(g) && Shaped(sim, g) && SimOk(sim) && t.addr < ADDR_LIMIT
    ensures SimOk(Step(sim, g, rule, t))
  {
    if t.col0 != 'I' && t.op in {'S', 'L', 'M'} {
      var s1 := Load(sim, g, rule, t.addr);
      LoadOk(sim, g, rule, t.addr);
      if t.op == 'M' {
        LoadOk(s1, g, rule, t.addr);
      }
    }
  }

  /** A load keeps the cache coherent. */
  lemma LoadOk(sim: Sim, g: Geometry, rule: TagRule, addr: nat)
    requires Fits(g) && Shaped(sim, g) && SimOk(sim) && addr < ADDR_LIMIT
    ensures SimOk(Load(sim, g, rule, addr))
  {
    Pow2Less(g.s);
    var index := SetBits(addr, g.s, g.b);
    if g.E > 0 {
      var k := AccessEffect(sim, index, TagOf(rule, addr, g));
    } else {
      var r := Load(sim, g, rule, addr);
      assert forall i :: 0 <= i < |r.sets| ==> r.sets[i] == sim.sets[i];
    }
  }

  /** With at least one line per set, the store half of an `M` line always hits. */
  lemma ModifyStoreHits(sim: Sim, g: Geometry, rule: TagRule, addr: nat)
    requires Fits(g) && Shaped(sim, g) && SimOk(sim) && addr < ADDR_LIMIT && g.E > 0
    ensures var s1 := Load(sim, g, rule, addr); Store(s1, g, rule, addr).hit == s1.hit + 1
  {
    Pow2Less(g.s);
    RepeatHits(sim, SetBits(addr, g.s, g.b), TagOf(rule, addr, g));
  }
}
