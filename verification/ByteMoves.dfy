/** The nine ACPI_MOVE_m_TO_n macros in their three configurations: big-endian hosts,
    little-endian hosts that can access unaligned words, and little-endian hosts that cannot. */
module ByteMoves {
  import opened Bits
  import opened Bytes

  datatype Config = BigEndianHost | LittleEndianUnaligned | LittleEndianBytewise {
    function Order(): Host { if BigEndianHost? then BigEndian else LittleEndian }
  }

  /** The statements the macros are made of; offsets are relative to destination and source. */
  datatype Statement =
    | Clear(n: nat)                // *(UINTn *) d = 0
    | CopyByte(to: nat, from: nat) // ((UINT8 *) d)[to] = ((UINT8 *) s)[from]
    | CopyWord(to: nat, from: nat) // *(UINTto *) d = *(UINTfrom *) s, sizes in bytes

  predicate Size(n: nat) { n == 2 || n == 4 || n == 8 }

  /** The body of ACPI_MOVE_m_TO_n, sizes in bytes. */
  function Body(c: Config, m: nat, n: nat): seq<Statement>
    requires Size(m) && Size(n)
  {
    match c
    case BigEndianHost =>
      if n == 2 then [CopyByte(0, 1), CopyByte(1, 0)]
      else if m == 2 && n == 4 then [Clear(4), CopyByte(2, 1), CopyByte(3, 0)]
      else if m == 2 then [Clear(8), CopyByte(6, 1), CopyByte(7, 0)]
      else if n == 4 then [CopyByte(0, 3), CopyByte(1, 2), CopyByte(2, 1), CopyByte(3, 0)]
      else if m == 4 then [Clear(8), CopyByte(4, 3), CopyByte(5, 2), CopyByte(6, 1), CopyByte(7, 0)]
      else [CopyByte(0, 7), CopyByte(1, 6), CopyByte(2, 5), CopyByte(3, 4),
            CopyByte(4, 3), CopyByte(5, 2), CopyByte(6, 1), CopyByte(7, 0)]
    case LittleEndianUnaligned =>
      if n == 2 then [CopyWord(2, 2)]
      else if m == 2 then [CopyWord(n, 2)]
      else if n == 4 then [CopyWord(4, 4)]
      else [CopyWord(8, m)]
    case LittleEndianBytewise =>
      var move16 := [CopyByte(0, 0), CopyByte(1, 1)];
      var move32 := [CopyByte(0, 0), CopyByte(1, 1), CopyByte(2, 2), CopyByte(3, 3)];
      if n == 2 then move16
      else if m == 2 then [Clear(n)] + move16
      else if n == 4 then move32
      else if m == 4 then [Clear(8)] + move32
      else [CopyByte(0, 0), CopyByte(1, 1), CopyByte(2, 2), CopyByte(3, 3),
            CopyByte(4, 4), CopyByte(5, 5), CopyByte(6, 6), CopyByte(7, 7)]
  }

  function Overwrite<T>(memory: seq<T>, at: nat, b: seq<T>): (r: seq<T>)
    requires at + |b| <= |memory|
    ensures |r| == |memory|
  {
    memory[..at] + b + memory[at + |b|..]
  }

  /** The statement stays within memory. */
  predicate InBounds(st: Statement, size: nat, d: nat, s: nat) {
    match st
    case Clear(n) => d + n <= size
    case CopyByte(to, from) => d + to < size && s + from < size
    case CopyWord(to, from) => d + to <= size && s + from <= size
  }

  /** The bytes of a word of `to` bytes that is assigned the word `b`. */
  function Converted(b: seq<Byte>, to: nat, host: Host): (r: seq<Byte>)
    ensures |r| == to
  {
    Store(Load(b, host), to, host)
  }

  function Execute(memory: seq<Byte>, st: Statement, d: nat, s: nat, host: Host): (r: seq<Byte>)
    requires InBounds(st, |memory|, d, s)
    ensures |r| == |memory|
  {
    match st
    case Clear(n) => Overwrite(memory, d, Zeros(n))
    case CopyByte(to, from) => memory[d + to := memory[s + from]]
    case CopyWord(to, from) => Overwrite(memory, d, Converted(memory[s..s + from], to, host))
  }

  predicate AllInBounds(sts: seq<Statement>, size: nat, d: nat, s: nat) {
    forall k :: 0 <= k < |sts| ==> InBounds(sts[k], size, d, s)
  }

  function Run(memory: seq<Byte>, sts: seq<Statement>, d: nat, s: nat, host: Host): (r: seq<Byte>)
    requires AllInBounds(sts, |memory|, d, s)
    ensures |r| == |memory|
  {
    if sts == [] then memory
    else Execute(Run(memory, sts[..|sts| - 1], d, s, host), sts[|sts| - 1], d, s, host)
  }

  // ---- The bodies in closed form ----

  function Min(m: nat, n: nat): nat { if m < n then m else n }

  /** Where the copied bytes begin in a destination of `n` bytes. */
  function Base(c: Config, n: nat, k: nat): nat
    requires k <= n
  {
    if c.BigEndianHost? then n - k else 0
  }

  function From(c: Config, k: nat, i: nat): nat
    requires i < k
  {
    if c.BigEndianHost? then k - 1 - i else i
  }

  function Copies(c: Config, n: nat, k: nat): (r: seq<Statement>)
    requires k <= n
    ensures |r| == k
    ensures forall i :: 0 <= i < k ==> r[i] == CopyByte(Base(c, n, k) + i, From(c, k, i))
  {
    seq(k, i requires 0 <= i < k => CopyByte(Base(c, n, k) + i, From(c, k, i)))
  }

  /** A bytewise body clears a wider destination and then copies the low-order bytes to where
      the host keeps them; a word body is one assignment of the narrower word. */
  function Shape(c: Config, m: nat, n: nat): seq<Statement> {
    if c.LittleEndianUnaligned? then [CopyWord(n, Min(m, n))]
    else if n > m then [Clear(n)] + Copies(c, n, m)
    else Copies(c, n, n)
  }

  lemma BigEndianShape(m: nat, n: nat)
    requires Size(m) && Size(n)
    ensures Body(BigEndianHost, m, n) == Shape(BigEndianHost, m, n)
  {
    assert Copies(BigEndianHost, 2, 2) == [CopyByte(0, 1), CopyByte(1, 0)];
    assert Copies(BigEndianHost, 4, 2) == [CopyByte(2, 1), CopyByte(3, 0)];
    assert Copies(BigEndianHost, 8, 2) == [CopyByte(6, 1), CopyByte(7, 0)];
    assert Copies(BigEndianHost, 4, 4) == [CopyByte(0, 3), CopyByte(1, 2), CopyByte(2, 1), CopyByte(3, 0)];
    assert Copies(BigEndianHost, 8, 4) == [CopyByte(4, 3), CopyByte(5, 2), CopyByte(6, 1), CopyByte(7, 0)];
    assert Copies(BigEndianHost, 8, 8)
        == [CopyByte(0, 7), CopyByte(1, 6), CopyByte(2, 5), CopyByte(3, 4),
            CopyByte(4, 3), CopyByte(5, 2), CopyByte(6, 1), CopyByte(7, 0)];
  }

  lemma BytewiseShape(m: nat, n: nat)
    requires Size(m) && Size(n)
    ensures Body(LittleEndianBytewise, m, n) == Shape(LittleEndianBytewise, m, n)
  {
    var k := Min(m, n);
    var copies := Copies(LittleEndianBytewise, n, k);
    assert k == 2 ==> copies == [CopyByte(0, 0), CopyByte(1, 1)];
    assert k == 4 ==> copies == [CopyByte(0, 0), CopyByte(1, 1), CopyByte(2, 2), CopyByte(3, 3)];
    assert k == 8 ==> copies == [CopyByte(0, 0), CopyByte(1, 1), CopyByte(2, 2), CopyByte(3, 3),
                                 CopyByte(4, 4), CopyByte(5, 5), CopyByte(6, 6), CopyByte(7, 7)];
  }

  /** The body of each macro has the shape of its configuration. */
  lemma BodyShape(c: Config, m: nat, n: nat)
    requires Size(m) && Size(n)
    ensures Body(c, m, n) == Shape(c, m, n)
  {
    match c
    case BigEndianHost => BigEndianShape(m, n);
    case LittleEndianUnaligned =>
    case LittleEndianBytewise => BytewiseShape(m, n);
  }

  // ---- What the copies do ----

  predicate Disjoint(d: nat, n: nat, s: nat, m: nat) { d + n <= s || s + m <= d }

  lemma CopiesInBounds(c: Config, n: nat, k: nat, size: nat, d: nat, s: nat)
    requires k <= n && d + n <= size && s + k <= size
    ensures AllInBounds(Copies(c, n, k), size, d, s)
  {
  }

  /** The byte that copy `i` reads has been written by an earlier one. */
  predicate Stale(start: nat, i: nat, read: nat) { start <= read < start + i }

  /** How copies from the places `sources` to `start` on, one after the other, take `before` to
      `after`: every byte copied is the original one, unless it was overwritten before it was
      read; then it is what overwrote it. No other byte changes. */
  predicate Traced<T(==)>(before: seq<T>, after: seq<T>, start: nat, sources: seq<nat>) {
    && |after| == |before| && start + |sources| <= |before|
    && (forall i :: 0 <= i < |sources| ==> sources[i] < |before|)
    && (forall x :: 0 <= x < |before| && !(start <= x < start + |sources|) ==> after[x] == before[x])
    && (forall i :: 0 <= i < |sources| ==>
          after[start + i] == if Stale(start, i, sources[i]) then after[sources[i]] else before[sources[i]])
  }

  lemma TraceStep<T>(before: seq<T>, after: seq<T>, start: nat, sources: seq<nat>, read: nat)
    requires Traced(before, after, start, sources) && read < |before| && start + |sources| < |before|
    ensures Traced(before, after[start + |sources| := after[read]], start, sources + [read])
  {
    var all, r := sources + [read], after[start + |sources| := after[read]];
    forall i | 0 <= i < |all|
      ensures r[start + i] == if Stale(start, i, all[i]) then r[all[i]] else before[all[i]]
    {
      if i < |sources| {
        assert all[i] == sources[i];
      }
    }
  }

  /** Statement `i` copies the byte at `sources[i]` to offset `base + i`. */
  predicate Copying(sts: seq<Statement>, base: nat, sources: seq<nat>, s: nat) {
    |sts| == |sources| && forall i :: 0 <= i < |sts| ==> sts[i].CopyByte? && sts[i].to == base + i && s + sts[i].from == sources[i]
  }

  lemma {:induction false} CopyTrace(memory: seq<Byte>, sts: seq<Statement>, base: nat, sources: seq<nat>, d: nat, s: nat, host: Host)
    requires Copying(sts, base, sources, s) && d + base + |sts| <= |memory|
    requires forall i :: 0 <= i < |sources| ==> sources[i] < |memory|
    ensures AllInBounds(sts, |memory|, d, s)
    ensures Traced(memory, Run(memory, sts, d, s, host), d + base, sources)
    decreases |sts|
  {
    if sts != [] {
      var n := |sts| - 1;
      CopyTrace(memory, sts[..n], base, sources[..n], d, s, host);
      var p := Run(memory, sts[..n], d, s, host);
      assert sts[n] == CopyByte(base + n, sources[n] - s);
      assert Run(memory, sts, d, s, host) == p[d + base + n := p[sources[n]]];
      TraceStep(memory, p, d + base, sources[..n], sources[n]);
      assert sources == sources[..n] + [sources[n]];
    }
  }

  /** Where the copies of a body read. */
  function Reads(c: Config, k: nat, s: nat): (sources: seq<nat>)
    ensures |sources| == k && forall i :: 0 <= i < k ==> sources[i] == s + From(c, k, i) < s + k
  {
    seq(k, i requires 0 <= i < k => s + From(c, k, i))
  }

  lemma CopiesTraced(memory: seq<Byte>, c: Config, n: nat, k: nat, d: nat, s: nat)
    requires k <= n && d + n <= |memory| && s + k <= |memory|
    ensures AllInBounds(Copies(c, n, k), |memory|, d, s)
    ensures Traced(memory, Run(memory, Copies(c, n, k), d, s, c.Order()), d + Base(c, n, k), Reads(c, k, s))
  {
    CopyTrace(memory, Copies(c, n, k), Base(c, n, k), Reads(c, k, s), d, s, c.Order());
  }

  lemma {:induction false} RunAppend(memory: seq<Byte>, first: seq<Statement>, second: seq<Statement>, d: nat, s: nat, host: Host)
    requires AllInBounds(first, |memory|, d, s) && AllInBounds(second, |memory|, d, s)
    ensures AllInBounds(first + second, |memory|, d, s)
    ensures Run(memory, first + second, d, s, host) == Run(Run(memory, first, d, s, host), second, d, s, host)
    decreases |second|
  {
    if second == [] {
      assert first + second == first;
    } else {
      var n := |second| - 1;
      assert (first + second)[..|first + second| - 1] == first + second[..n];
      RunAppend(memory, first, second[..n], d, s, host);
    }
  }

  lemma RunOne(memory: seq<Byte>, st: Statement, d: nat, s: nat, host: Host)
    requires InBounds(st, |memory|, d, s)
    ensures AllInBounds([st], |memory|, d, s)
    ensures Run(memory, [st], d, s, host) == Execute(memory, st, d, s, host)
  {
    assert [st][..0] == [];
    assert Run(memory, [st][..0], d, s, host) == memory;
  }

  /** `after` is `memory` with the bytes `b` from `at` on. */
  predicate Overwritten<T(==)>(memory: seq<T>, after: seq<T>, at: nat, b: seq<T>) {
    && at + |b| <= |memory| == |after|
    && forall x :: 0 <= x < |memory| ==> after[x] == if at <= x < at + |b| then b[x - at] else memory[x]
  }

  lemma OverwriteIs<T>(memory: seq<T>, at: nat, b: seq<T>)
    requires at + |b| <= |memory|
    ensures Overwritten(memory, Overwrite(memory, at, b), at, b)
  {
  }

  lemma ClearThenCopies(memory: seq<Byte>, sts: seq<Statement>, n: nat, d: nat, s: nat, host: Host)
    requires d + n <= |memory| && AllInBounds(sts, |memory|, d, s)
    ensures AllInBounds([Clear(n)] + sts, |memory|, d, s)
    ensures Run(memory, [Clear(n)] + sts, d, s, host) == Run(Overwrite(memory, d, Zeros(n)), sts, d, s, host)
  {
    RunOne(memory, Clear(n), d, s, host);
    RunAppend(memory, [Clear(n)], sts, d, s, host);
  }

  /** What the copies of a bytewise body start from. */
  predicate Prepared(memory: seq<Byte>, before: seq<Byte>, m: nat, n: nat, d: nat) {
    if n > m then Overwritten(memory, before, d, Zeros(n)) else before == memory
  }

  /** A bytewise body is copies one after the other from what is prepared. */
  lemma ShapeTraced(memory: seq<Byte>, c: Config, m: nat, n: nat, d: nat, s: nat) returns (before: seq<Byte>)
    requires !c.LittleEndianUnaligned? && d + n <= |memory| && s + m <= |memory|
    ensures AllInBounds(Shape(c, m, n), |memory|, d, s) && Prepared(memory, before, m, n, d)
    ensures Traced(before, Run(memory, Shape(c, m, n), d, s, c.Order()), d + Base(c, n, Min(m, n)), Reads(c, Min(m, n), s))
  {
    if n > m {
      before := Overwrite(memory, d, Zeros(n));
      ClearedPrepared(memory, m, n, d);
      WideningTraced(memory, before, c, m, n, d, s);
    } else {
      before := memory;
      NarrowingTraced(memory, c, m, n, d, s);
    }
  }

  lemma NarrowingTraced(memory: seq<Byte>, c: Config, m: nat, n: nat, d: nat, s: nat)
    requires !c.LittleEndianUnaligned? && n <= m && d + n <= |memory| && s + m <= |memory|
    ensures AllInBounds(Shape(c, m, n), |memory|, d, s)
    ensures Traced(memory, Run(memory, Shape(c, m, n), d, s, c.Order()), d + Base(c, n, Min(m, n)), Reads(c, Min(m, n), s))
  {
    var k := Min(m, n);
    assert k == n;
    CopiesTraced(memory, c, n, k, d, s);
  }

  lemma ClearedPrepared(memory: seq<Byte>, m: nat, n: nat, d: nat)
    requires m < n && d + n <= |memory|
    ensures Prepared(memory, Overwrite(memory, d, Zeros(n)), m, n, d)
  {
    OverwriteIs(memory, d, Zeros(n));
  }

  lemma WideningTraced(memory: seq<Byte>, before: seq<Byte>, c: Config, m: nat, n: nat, d: nat, s: nat)
    requires !c.LittleEndianUnaligned? && m < n && d + n <= |memory| && s + m <= |memory|
    requires before == Overwrite(memory, d, Zeros(n))
    ensures AllInBounds(Shape(c, m, n), |memory|, d, s)
    ensures Traced(before, Run(memory, Shape(c, m, n), d, s, c.Order()), d + Base(c, n, Min(m, n)), Reads(c, Min(m, n), s))
  {
    var k := Min(m, n);
    assert k == m;
    WideningRuns(memory, c, k, n, d, s);
    CopiesTraced(before, c, n, k, d, s);
  }

  lemma WideningRuns(memory: seq<Byte>, c: Config, m: nat, n: nat, d: nat, s: nat)
    requires !c.LittleEndianUnaligned? && m < n && d + n <= |memory| && s + m <= |memory|
    ensures AllInBounds(Shape(c, m, n), |memory|, d, s) && AllInBounds(Copies(c, n, m), |memory|, d, s)
    ensures Run(memory, Shape(c, m, n), d, s, c.Order()) == Run(Overwrite(memory, d, Zeros(n)), Copies(c, n, m), d, s, c.Order())
  {
    CopiesInBounds(c, n, m, |memory|, d, s);
    ClearThenCopies(memory, Copies(c, n, m), n, d, s, c.Order());
  }

  // ---- Which overlaps do no harm ----

  /** No copy reads a byte that an earlier one has written. */
  predicate NoneStale(start: nat, sources: seq<nat>) {
    forall i :: 0 <= i < |sources| ==> !Stale(start, i, sources[i])
  }

  /** Which overlaps of source and destination a move tolerates. A word is loaded before it is
      stored. A bytewise body that widens clears the destination first, so the source must lie
      apart. One that does not reads as many bytes as it writes, upwards on a little-endian
      host, and towards each other on a big-endian one. */
  predicate Tolerates(c: Config, m: nat, n: nat, d: nat, s: nat) {
    if c.LittleEndianUnaligned? then true
    else if n > m then Disjoint(d, n, s, m)
    else if c.LittleEndianBytewise? then d <= s || s + n <= d
    else d + n <= s + 1 || s + n <= d + 1
  }

  lemma DisjointTolerated(c: Config, m: nat, n: nat, d: nat, s: nat)
    requires Disjoint(d, n, s, m)
    ensures Tolerates(c, m, n, d, s)
  {
  }

  lemma DisjointNotStale(c: Config, n: nat, k: nat, d: nat, s: nat)
    requires k <= n && Disjoint(d, n, s, k)
    ensures NoneStale(d + Base(c, n, k), Reads(c, k, s))
  {
  }

  /** A tolerated move that does not widen reads no byte it has written, and any other one
      does. */
  lemma ToleratedNotStale(c: Config, m: nat, n: nat, d: nat, s: nat)
    requires !c.LittleEndianUnaligned? && 0 < n <= m
    ensures Tolerates(c, m, n, d, s) <==> NoneStale(d, Reads(c, n, s))
  {
    if !Tolerates(c, m, n, d, s) {
      var i := StaleRead(c, m, n, d, s);
    }
  }

  lemma StaleRead(c: Config, m: nat, n: nat, d: nat, s: nat) returns (i: nat)
    requires !c.LittleEndianUnaligned? && 0 < n <= m && !Tolerates(c, m, n, d, s)
    ensures i < n && Stale(d + Base(c, n, n), i, Reads(c, n, s)[i])
  {
    i := if c.BigEndianHost? then (s + n - 1 - d) / 2 + 1 else n - 1;
  }

  /** The destination bytes as they should be after a bytewise move. */
  function Placed(memory: seq<Byte>, c: Config, s: nat, n: nat, k: nat): (b: seq<Byte>)
    requires k <= n && s + k <= |memory|
    ensures |b| == n
    ensures forall j :: 0 <= j < n ==>
              b[j] == if Base(c, n, k) <= j < Base(c, n, k) + k then memory[s + From(c, k, j - Base(c, n, k))] else 0
  {
    seq(n, j requires 0 <= j < n =>
      if Base(c, n, k) <= j < Base(c, n, k) + k then memory[s + From(c, k, j - Base(c, n, k))] else 0)
  }

  /** Copy `i` brings over the right byte. */
  lemma TracedCopy(memory: seq<Byte>, before: seq<Byte>, after: seq<Byte>, c: Config, m: nat, n: nat, d: nat, s: nat, i: nat)
    requires !c.LittleEndianUnaligned? && n > 0 && d + n <= |memory| && s + m <= |memory| && Tolerates(c, m, n, d, s)
    requires Prepared(memory, before, m, n, d) && Traced(before, after, d + Base(c, n, Min(m, n)), Reads(c, Min(m, n), s))
    requires i < Min(m, n)
    ensures after[d + Base(c, n, Min(m, n)) + i] == memory[s + From(c, Min(m, n), i)]
  {
    var k := Min(m, n);
    assert Reads(c, k, s)[i] == s + From(c, k, i);
    if n > m {
      DisjointNotStale(c, n, k, d, s);
    } else {
      ToleratedNotStale(c, m, n, d, s);
    }
  }

  lemma CopiedByte(memory: seq<Byte>, before: seq<Byte>, after: seq<Byte>, c: Config, m: nat, n: nat, d: nat, s: nat, x: nat)
    requires !c.LittleEndianUnaligned? && n > 0 && d + n <= |memory| && s + m <= |memory| && Tolerates(c, m, n, d, s)
    requires Prepared(memory, before, m, n, d) && Traced(before, after, d + Base(c, n, Min(m, n)), Reads(c, Min(m, n), s))
    requires d + Base(c, n, Min(m, n)) <= x < d + Base(c, n, Min(m, n)) + Min(m, n)
    ensures after[x] == Placed(memory, c, s, n, Min(m, n))[x - d]
  {
    TracedCopy(memory, before, after, c, m, n, d, s, x - d - Base(c, n, Min(m, n)));
  }

  lemma UncopiedByte(memory: seq<Byte>, before: seq<Byte>, after: seq<Byte>, c: Config, m: nat, n: nat, d: nat, s: nat, x: nat)
    requires d + n <= |memory| && s + m <= |memory| && x < |memory|
    requires Prepared(memory, before, m, n, d) && Traced(before, after, d + Base(c, n, Min(m, n)), Reads(c, Min(m, n), s))
    requires !(d + Base(c, n, Min(m, n)) <= x < d + Base(c, n, Min(m, n)) + Min(m, n))
    ensures after[x] == if d <= x < d + n then Placed(memory, c, s, n, Min(m, n))[x - d] else memory[x]
  {
    assert after[x] == before[x];
  }

  lemma TracedByte(memory: seq<Byte>, before: seq<Byte>, after: seq<Byte>, c: Config, m: nat, n: nat, d: nat, s: nat, x: nat)
    requires !c.LittleEndianUnaligned? && n > 0 && d + n <= |memory| && s + m <= |memory| && Tolerates(c, m, n, d, s)
    requires Prepared(memory, before, m, n, d) && Traced(before, after, d + Base(c, n, Min(m, n)), Reads(c, Min(m, n), s))
    requires x < |memory|
    ensures after[x] == if d <= x < d + n then Placed(memory, c, s, n, Min(m, n))[x - d] else memory[x]
  {
    var start := d + Base(c, n, Min(m, n));
    if start <= x < start + Min(m, n) {
      CopiedByte(memory, before, after, c, m, n, d, s, x);
    } else {
      UncopiedByte(memory, before, after, c, m, n, d, s, x);
    }
  }

  lemma TracedPlaces(memory: seq<Byte>, before: seq<Byte>, after: seq<Byte>, c: Config, m: nat, n: nat, d: nat, s: nat)
    requires !c.LittleEndianUnaligned? && n > 0 && d + n <= |memory| && s + m <= |memory| && Tolerates(c, m, n, d, s)
    requires Prepared(memory, before, m, n, d) && Traced(before, after, d + Base(c, n, Min(m, n)), Reads(c, Min(m, n), s))
    ensures Overwritten(memory, after, d, Placed(memory, c, s, n, Min(m, n)))
  {
    var b := Placed(memory, c, s, n, Min(m, n));
    forall x | 0 <= x < |memory| ensures after[x] == if d <= x < d + n then b[x - d] else memory[x] {
      TracedByte(memory, before, after, c, m, n, d, s, x);
    }
  }

  // ---- The value that arrives ----

  lemma PlacedValue(memory: seq<Byte>, c: Config, s: nat, n: nat, k: nat)
    requires k <= n && s + k <= |memory|
    ensures Load(Placed(memory, c, s, n, k), c.Order()) == ValueLE(memory[s..s + k])
  {
    var src := memory[s..s + k];
    ValueLEZeros(src, n - k);
    if c.BigEndianHost? {
      assert Reversed(Placed(memory, c, s, n, k)) == src + Zeros(n - k);
    } else {
      assert Placed(memory, c, s, n, k) == src + Zeros(n - k);
    }
  }

  /** The low-order bytes of the source spell the source reduced to the destination. */
  lemma SourceReduced(src: seq<Byte>, n: nat)
    ensures ValueLE(src[..Min(|src|, n)]) == Low(ValueLE(src), 8 * n)
  {
    if |src| < n {
      assert src[..|src|] == src;
      ValueLEBound(src);
      Pow2Monotone(8 * |src|, 8 * n);
      LowIdentity(ValueLE(src), 8 * n);
    } else {
      ValueLEPrefix(src, n);
    }
  }

  lemma WordReadsBack(v: nat, n: nat)
    requires v < Pow2(8 * n)
    ensures |BytesLE(v, n)| == n && ValueLE(BytesLE(v, n)) == v
  {
    BytesLEValue(v, n);
    LowIdentity(v, 8 * n);
  }

  /** The host finds in the destination the little-endian source, truncated or zero-extended to
      its size, and no other byte has changed. */
  predicate Moved(memory: seq<Byte>, after: seq<Byte>, c: Config, m: nat, n: nat, d: nat, s: nat)
    requires d + n <= |memory| == |after| && s + m <= |memory|
  {
    && Load(after[d..d + n], c.Order()) == Low(ValueLE(memory[s..s + m]), 8 * n)
    && after[..d] == memory[..d] && after[d + n..] == memory[d + n..]
  }

  lemma OverwrittenMoved(memory: seq<Byte>, after: seq<Byte>, c: Config, m: nat, n: nat, d: nat, s: nat, b: seq<Byte>)
    requires s + m <= |memory| && |b| == n && Overwritten(memory, after, d, b)
    requires Load(b, c.Order()) == Low(ValueLE(memory[s..s + m]), 8 * n)
    ensures Moved(memory, after, c, m, n, d, s)
  {
    assert after[d..d + n] == b;
    assert after[..d] == memory[..d] && after[d + n..] == memory[d + n..];
  }

  lemma OverwriteMoved(memory: seq<Byte>, c: Config, m: nat, n: nat, d: nat, s: nat, b: seq<Byte>)
    requires d + n <= |memory| && s + m <= |memory| && |b| == n
    requires Load(b, c.Order()) == Low(ValueLE(memory[s..s + m]), 8 * n)
    ensures Moved(memory, Overwrite(memory, d, b), c, m, n, d, s)
  {
    OverwriteIs(memory, d, b);
    OverwrittenMoved(memory, Overwrite(memory, d, b), c, m, n, d, s, b);
  }

  /** The bytes that belong in the destination spell the value that belongs there. */
  lemma PlacedReduced(memory: seq<Byte>, c: Config, m: nat, n: nat, s: nat)
    requires s + m <= |memory|
    ensures Load(Placed(memory, c, s, n, Min(m, n)), c.Order()) == Low(ValueLE(memory[s..s + m]), 8 * n)
  {
    assert memory[s..s + m][..Min(m, n)] == memory[s..s + Min(m, n)];
    SourceReduced(memory[s..s + m], n);
    PlacedValue(memory, c, s, n, Min(m, n));
  }

  lemma BytewiseMoved(memory: seq<Byte>, c: Config, m: nat, n: nat, d: nat, s: nat)
    requires !c.LittleEndianUnaligned? && n > 0 && d + n <= |memory| && s + m <= |memory| && Tolerates(c, m, n, d, s)
    ensures AllInBounds(Shape(c, m, n), |memory|, d, s)
    ensures Moved(memory, Run(memory, Shape(c, m, n), d, s, c.Order()), c, m, n, d, s)
  {
    var before := ShapeTraced(memory, c, m, n, d, s);
    var after := Run(memory, Shape(c, m, n), d, s, c.Order());
    TracedPlaces(memory, before, after, c, m, n, d, s);
    PlacedReduced(memory, c, m, n, s);
    OverwrittenMoved(memory, after, c, m, n, d, s, Placed(memory, c, s, n, Min(m, n)));
  }

  lemma ConvertedValue(memory: seq<Byte>, m: nat, n: nat, s: nat)
    requires s + m <= |memory|
    ensures Load(Converted(memory[s..s + Min(m, n)], n, LittleEndian), LittleEndian) == Low(ValueLE(memory[s..s + m]), 8 * n)
  {
    assert memory[s..s + m][..Min(m, n)] == memory[s..s + Min(m, n)];
    SourceReduced(memory[s..s + m], n);
    WordReadsBack(Low(ValueLE(memory[s..s + m]), 8 * n), n);
  }

  lemma WordRuns(memory: seq<Byte>, n: nat, k: nat, d: nat, s: nat)
    requires d + n <= |memory| && s + k <= |memory|
    ensures AllInBounds([CopyWord(n, k)], |memory|, d, s)
    ensures Run(memory, [CopyWord(n, k)], d, s, LittleEndian) == Overwrite(memory, d, Converted(memory[s..s + k], n, LittleEndian))
  {
    RunOne(memory, CopyWord(n, k), d, s, LittleEndian);
  }

  lemma WordMoved(memory: seq<Byte>, m: nat, n: nat, d: nat, s: nat)
    requires d + n <= |memory| && s + m <= |memory|
    ensures AllInBounds(Shape(LittleEndianUnaligned, m, n), |memory|, d, s)
    ensures Moved(memory, Run(memory, Shape(LittleEndianUnaligned, m, n), d, s, LittleEndian), LittleEndianUnaligned, m, n, d, s)
  {
    var k := Min(m, n);
    assert Shape(LittleEndianUnaligned, m, n) == [CopyWord(n, k)];
    ConvertedValue(memory, m, n, s);
    OverwriteMoved(memory, LittleEndianUnaligned, m, n, d, s, Converted(memory[s..s + k], n, LittleEndian));
    WordRuns(memory, n, k, d, s);
  }

  /** Every one of the nine moves, in each of the three configurations, does this on all memory
      wherever the overlap is tolerated; in particular with source and destination apart. */
  lemma MoveMeaning(memory: seq<Byte>, c: Config, m: nat, n: nat, d: nat, s: nat)
    requires Size(m) && Size(n) && d + n <= |memory| && s + m <= |memory| && Tolerates(c, m, n, d, s)
    ensures AllInBounds(Body(c, m, n), |memory|, d, s)
    ensures Moved(memory, Run(memory, Body(c, m, n), d, s, c.Order()), c, m, n, d, s)
  {
    BodyShape(c, m, n);
    if c.LittleEndianUnaligned? {
      WordMoved(memory, m, n, d, s);
    } else {
      BytewiseMoved(memory, c, m, n, d, s);
    }
  }

  // ---- Overlaps that are not tolerated ----

  /** Memory in which the source bytes are nonzero and all different. */
  function Telltale(size: nat, s: nat): (memory: seq<Byte>)
    ensures |memory| == size && forall x :: s <= x < s + 8 && x < size ==> memory[x] == x - s + 1
  {
    seq(size, x requires 0 <= x < size => if s <= x < s + 8 then x - s + 1 else 0)
  }

  lemma LoadInjective(a: seq<Byte>, b: seq<Byte>, host: Host)
    requires |a| == |b| && Load(a, host) == Load(b, host)
    ensures a == b
  {
    var x, y := if host == LittleEndian then a else Reversed(a), if host == LittleEndian then b else Reversed(b);
    ValueLEBytes(x);
    ValueLEBytes(y);
    assert x == y;
    forall i | 0 <= i < |a| ensures a[i] == b[i] {
      assert x[|a| - 1 - i] == y[|a| - 1 - i] && x[i] == y[i];
    }
  }

  /** Each byte has arrived where it belongs. */
  predicate Arrived<T(==)>(memory: seq<T>, after: seq<T>, start: nat, sources: seq<nat>)
    requires start + |sources| <= |after| && forall i :: 0 <= i < |sources| ==> sources[i] < |memory|
  {
    forall i :: 0 <= i < |sources| ==> after[start + i] == memory[sources[i]]
  }

  lemma MovedArrives(memory: seq<Byte>, after: seq<Byte>, c: Config, m: nat, n: nat, d: nat, s: nat)
    requires d + n <= |memory| == |after| && s + m <= |memory| && Moved(memory, after, c, m, n, d, s)
    ensures Arrived(memory, after, d + Base(c, n, Min(m, n)), Reads(c, Min(m, n), s))
  {
    var k := Min(m, n);
    PlacedReduced(memory, c, m, n, s);
    LoadInjective(after[d..d + n], Placed(memory, c, s, n, k), c.Order());
    PlacedArrives(memory, after, c, n, k, d, s);
  }

  lemma PlacedArrives(memory: seq<Byte>, after: seq<Byte>, c: Config, n: nat, k: nat, d: nat, s: nat)
    requires k <= n && d + n <= |memory| == |after| && s + k <= |memory| && after[d..d + n] == Placed(memory, c, s, n, k)
    ensures Arrived(memory, after, d + Base(c, n, k), Reads(c, k, s))
  {
    forall i | 0 <= i < k ensures after[d + Base(c, n, k) + i] == memory[Reads(c, k, s)[i]] {
      assert after[d + Base(c, n, k) + i] == after[d..d + n][Base(c, n, k) + i];
    }
  }

  predicate AllDiffer<T(==)>(memory: seq<T>, sources: seq<nat>)
    requires forall i :: 0 <= i < |sources| ==> sources[i] < |memory|
  {
    forall a, b :: 0 <= a < b < |sources| ==> memory[sources[a]] != memory[sources[b]]
  }

  /** Copies that read a byte they have written, or one that was not the right one to begin
      with, do not bring over bytes that are all different. */
  lemma SpoiltRead<T>(memory: seq<T>, before: seq<T>, after: seq<T>, start: nat, sources: seq<nat>, i: nat)
    requires |memory| == |before| && Traced(before, after, start, sources) && i < |sources|
    requires Stale(start, i, sources[i]) || before[sources[i]] != memory[sources[i]]
    requires AllDiffer(memory, sources)
    ensures !Arrived(memory, after, start, sources)
  {
    if Stale(start, i, sources[i]) {
      var j := sources[i] - start;
      assert after[start + i] == after[start + j] && memory[sources[j]] != memory[sources[i]];
    }
  }

  lemma TelltaleDiffers(size: nat, c: Config, k: nat, s: nat)
    requires k <= 8 && s + k <= size
    ensures AllDiffer(Telltale(size, s), Reads(c, k, s))
  {
  }

  /** Where the overlap is not tolerated, some byte is spoilt before it is read. */
  lemma SpoiltAt(memory: seq<Byte>, before: seq<Byte>, c: Config, m: nat, n: nat, d: nat, s: nat) returns (i: nat)
    requires Size(m) && Size(n) && d + n <= |memory| && s + m <= |memory| && !Tolerates(c, m, n, d, s)
    requires Prepared(memory, before, m, n, d) && memory == Telltale(|memory|, s)
    ensures i < Min(m, n) && |before| == |memory|
    ensures var x := Reads(c, Min(m, n), s)[i]; Stale(d + Base(c, n, Min(m, n)), i, x) || before[x] != memory[x]
  {
    if n > m {
      var x := if d <= s then s else d;
      i := if c.BigEndianHost? then m - 1 - (x - s) else x - s;
      assert Reads(c, m, s)[i] == x && before[x] == Zeros(n)[x - d];
    } else {
      i := StaleRead(c, m, n, d, s);
    }
  }

  lemma NotToleratedIsWrong(c: Config, m: nat, n: nat, d: nat, s: nat, size: nat)
    requires Size(m) && Size(n) && d + n <= size && s + m <= size && !Tolerates(c, m, n, d, s)
    ensures AllInBounds(Shape(c, m, n), size, d, s)
    ensures !Moved(Telltale(size, s), Run(Telltale(size, s), Shape(c, m, n), d, s, c.Order()), c, m, n, d, s)
  {
    var memory := Telltale(size, s);
    var before := ShapeTraced(memory, c, m, n, d, s);
    var i := SpoiltAt(memory, before, c, m, n, d, s);
    TelltaleDiffers(size, c, Min(m, n), s);
    SpoiltMove(memory, before, Run(memory, Shape(c, m, n), d, s, c.Order()), c, m, n, d, s, i);
  }

  lemma SpoiltMove(memory: seq<Byte>, before: seq<Byte>, after: seq<Byte>, c: Config, m: nat, n: nat, d: nat, s: nat, i: nat)
    requires |memory| == |before| && d + n <= |memory| && s + m <= |memory| && i < Min(m, n)
    requires Traced(before, after, d + Base(c, n, Min(m, n)), Reads(c, Min(m, n), s)) && AllDiffer(memory, Reads(c, Min(m, n), s))
    requires var x := Reads(c, Min(m, n), s)[i]; Stale(d + Base(c, n, Min(m, n)), i, x) || before[x] != memory[x]
    ensures !Moved(memory, after, c, m, n, d, s)
  {
    SpoiltRead(memory, before, after, d + Base(c, n, Min(m, n)), Reads(c, Min(m, n), s), i);
    if Moved(memory, after, c, m, n, d, s) {
      MovedArrives(memory, after, c, m, n, d, s);
    }
  }

  /** Each of the 27 moves is right on all memory of any size iff it tolerates the overlap of
      its operands. */
  lemma OverlapExact(c: Config, m: nat, n: nat, d: nat, s: nat, size: nat)
    requires Size(m) && Size(n) && d + n <= size && s + m <= size
    ensures AllInBounds(Body(c, m, n), size, d, s)
    ensures Tolerates(c, m, n, d, s) <==>
              forall memory: seq<Byte> :: |memory| == size ==> Moved(memory, Run(memory, Body(c, m, n), d, s, c.Order()), c, m, n, d, s)
  {
    BodyInBounds(c, m, n, size, d, s);
    if Tolerates(c, m, n, d, s) {
      forall memory: seq<Byte> | |memory| == size
        ensures Moved(memory, Run(memory, Body(c, m, n), d, s, c.Order()), c, m, n, d, s)
      {
        MoveMeaning(memory, c, m, n, d, s);
      }
    } else {
      BodyShape(c, m, n);
      NotToleratedIsWrong(c, m, n, d, s, size);
    }
  }

  /** In place, a move that does not widen is right as a word and upwards, and wrong towards
      each other; one that widens is right as a word only. */
  lemma InPlace(c: Config, m: nat, n: nat, d: nat)
    requires Size(m) && Size(n)
    ensures Tolerates(c, m, n, d, d) <==> c.LittleEndianUnaligned? || (c.LittleEndianBytewise? && n <= m)
  {
  }

  /** A move executed statement by statement on memory. Whatever the overlap, memory ends up as
      the statements leave it; where the overlap is tolerated, the value has moved. */
  method Move(memory: array<Byte>, c: Config, m: nat, n: nat, d: nat, s: nat)
    requires Size(m) && Size(n) && d + n <= memory.Length && s + m <= memory.Length
    modifies memory
    ensures AllInBounds(Body(c, m, n), memory.Length, d, s)
    ensures memory[..] == Run(old(memory[..]), Body(c, m, n), d, s, c.Order())
    ensures Tolerates(c, m, n, d, s) ==> Moved(old(memory[..]), memory[..], c, m, n, d, s)
  {
    BodyInBounds(c, m, n, memory.Length, d, s);
    if Tolerates(c, m, n, d, s) {
      MoveMeaning(memory[..], c, m, n, d, s);
    }
    RunInPlace(memory, Body(c, m, n), d, s, c.Order());
  }

  method RunInPlace(memory: array<Byte>, sts: seq<Statement>, d: nat, s: nat, host: Host)
    requires AllInBounds(sts, memory.Length, d, s)
    modifies memory
    ensures memory[..] == Run(old(memory[..]), sts, d, s, host)
  {
    for i := 0 to |sts|
      invariant memory[..] == Run(old(memory[..]), sts[..i], d, s, host)
    {
      assert sts[..i + 1][..i] == sts[..i];
      ExecuteInPlace(memory, sts[i], d, s, host);
    }
    assert sts[..|sts|] == sts;
  }

  method ExecuteInPlace(memory: array<Byte>, st: Statement, d: nat, s: nat, host: Host)
    requires InBounds(st, memory.Length, d, s)
    modifies memory
    ensures memory[..] == Execute(old(memory[..]), st, d, s, host)
  {
    match st {
      case Clear(size) => StoreInPlace(memory, d, Zeros(size));
      case CopyByte(to, from) => CopyByteInPlace(memory, d + to, s + from);
      case CopyWord(to, from) => CopyWordInPlace(memory, to, from, d, s, host);
    }
  }

  method CopyByteInPlace(memory: array<Byte>, to: nat, from: nat)
    requires to < memory.Length && from < memory.Length
    modifies memory
    ensures memory[..] == old(memory[..])[to := old(memory[..])[from]]
  {
    memory[to] := memory[from];
  }

  method CopyWordInPlace(memory: array<Byte>, to: nat, from: nat, d: nat, s: nat, host: Host)
    requires d + to <= memory.Length && s + from <= memory.Length
    modifies memory
    ensures memory[..] == Overwrite(old(memory[..]), d, Converted(old(memory[..])[s..s + from], to, host))
  {
    ghost var before := memory[..];
    var b := memory[s..s + from];
    assert b == before[s..s + from];
    StoreInPlace(memory, d, Converted(b, to, host));
  }

  method StoreInPlace(memory: array<Byte>, d: nat, b: seq<Byte>)
    requires d + |b| <= memory.Length
    modifies memory
    ensures memory[..] == Overwrite(old(memory[..]), d, b)
  {
    forall i | 0 <= i < |b| { memory[d + i] := b[i]; }
  }

  lemma BodyInBounds(c: Config, m: nat, n: nat, size: nat, d: nat, s: nat)
    requires Size(m) && Size(n) && d + n <= size && s + m <= size
    ensures AllInBounds(Body(c, m, n), size, d, s)
  {
    BodyShape(c, m, n);
    CopiesInBounds(c, n, Min(m, n), size, d, s);
  }
}
