/** The 64-bit hash by which a client notices that a server's static data changed
    (crates/common/src/protocol.rs, `metadata_hash`). */
module MetadataHash {
  import opened Results
  import opened Bytes
  import opened Folds
  import opened Snapshots

  const FNV_OFFSET: u64 := 0xcbf29ce484222325
  const FNV_PRIME: u64 := 0x100000001b3
  const TWO_64: nat := 0x1_0000_0000_0000_0000

  /** One byte: exclusive or, then multiplication modulo 2^64. */
  function Step(hash: u64, b: byte): u64 {
    Xor(hash, b) * FNV_PRIME % TWO_64
  }

  /** A written field ends with the byte 0xff. */
  function Field(bytes: seq<byte>): seq<byte> {
    bytes + [0xff]
  }

  /** An absent text is written like an empty one. */
  function TextOrEmpty(text: Option<Text>): Text {
    match text
    case Some(t) => t
    case None => []
  }

  function StaticStream(g: StaticInfo): seq<byte> {
    Field([g.index]) + Field(g.name) + Field(TextOrEmpty(g.uuid)) + Field(Le64(g.memoryTotalMb))
  }

  function GresStream(gres: seq<StaticInfo>): seq<byte> {
    if |gres| == 0 then [] else StaticStream(gres[0]) + GresStream(gres[1..])
  }

  /** Everything the hash reads, in order. */
  function Stream(m: HostMetadata): seq<byte> {
    Field(m.hostname) + Field(TextOrEmpty(m.driverVersion)) + GresStream(m.gres)
  }

  function Hash(m: HostMetadata): u64 {
    Fold(Step, FNV_OFFSET, Stream(m))
  }

  // ---------------------------------------------------------------------------------------------
  // The hash as the program computes it.

  method WriteBytes(start: u64, bytes: seq<byte>) returns (hash: u64)
    ensures hash == Fold(Step, start, Field(bytes))
  {
    hash := start;
    for i := 0 to |bytes|
      invariant hash == Fold(Step, start, bytes[..i])
    {
      hash := Xor(hash, bytes[i]) * FNV_PRIME % TWO_64;
      FoldLast(Step, start, bytes[..i + 1]);
      assert bytes[..i + 1][..i] == bytes[..i];
    }
    assert bytes[..|bytes|] == bytes;
    FoldLast(Step, start, Field(bytes));
    assert Field(bytes)[..|bytes|] == bytes;
    hash := Xor(hash, 0xff) * FNV_PRIME % TWO_64;
  }

  lemma FoldFields(start: u64, a: seq<byte>, b: seq<byte>, c: seq<byte>, d: seq<byte>)
    ensures Fold(Step, start, a + b + c + d) ==
            Fold(Step, Fold(Step, Fold(Step, Fold(Step, start, a), b), c), d)
  {
    FoldConcat(Step, start, a + b + c, d);
    FoldConcat(Step, start, a + b, c);
    FoldConcat(Step, start, a, b);
  }

  lemma {:induction false} GresStreamLast(gres: seq<StaticInfo>)
    requires |gres| > 0
    ensures GresStream(gres) == GresStream(gres[..|gres| - 1]) + StaticStream(gres[|gres| - 1])
  {
    if |gres| > 1 {
      GresStreamLast(gres[1..]);
      assert gres[1..][..|gres| - 2] == gres[..|gres| - 1][1..];
      assert gres[1..][|gres| - 2] == gres[|gres| - 1];
    }
  }

  method WriteStatic(start: u64, gres: StaticInfo) returns (hash: u64)
    ensures hash == Fold(Step, start, StaticStream(gres))
  {
    hash := WriteBytes(start, [gres.index]);
    hash := WriteBytes(hash, gres.name);
    hash := WriteBytes(hash, TextOrEmpty(gres.uuid));
    hash := WriteBytes(hash, Le64(gres.memoryTotalMb));
    FoldFields(start, Field([gres.index]), Field(gres.name), Field(TextOrEmpty(gres.uuid)),
               Field(Le64(gres.memoryTotalMb)));
  }

  /** One more resource extends the stream by its own. */
  lemma StreamGrows(start: u64, head: seq<byte>, gres: seq<StaticInfo>, i: nat)
    requires i < |gres|
    ensures Fold(Step, start, head + GresStream(gres[..i + 1])) ==
            Fold(Step, Fold(Step, start, head + GresStream(gres[..i])), StaticStream(gres[i]))
  {
    GresStreamLast(gres[..i + 1]);
    assert gres[..i + 1][..i] == gres[..i];
    var before := head + GresStream(gres[..i]);
    assert head + GresStream(gres[..i + 1]) == before + StaticStream(gres[i]);
    FoldConcat(Step, start, before, StaticStream(gres[i]));
  }

  /** The running hash over all fields is the fold over the stream. */
  method ComputeHash(m: HostMetadata) returns (hash: u64)
    ensures hash == Hash(m)
  {
    ghost var head := Field(m.hostname) + Field(TextOrEmpty(m.driverVersion));
    hash := WriteBytes(FNV_OFFSET, m.hostname);
    hash := WriteBytes(hash, TextOrEmpty(m.driverVersion));
    FoldConcat(Step, FNV_OFFSET, Field(m.hostname), Field(TextOrEmpty(m.driverVersion)));
    assert head + GresStream([]) == head;
    for i := 0 to |m.gres|
      invariant hash == Fold(Step, FNV_OFFSET, head + GresStream(m.gres[..i]))
    {
      hash := WriteStatic(hash, m.gres[i]);
      StreamGrows(FNV_OFFSET, head, m.gres, i);
    }
    assert m.gres[..|m.gres|] == m.gres;
  }

  // ---------------------------------------------------------------------------------------------
  // The stream determines the metadata.

  lemma {:induction false} FieldSplits(a: seq<byte>, x: seq<byte>, b: seq<byte>, y: seq<byte>)
    requires 0xff !in a && 0xff !in b
    requires Field(a) + x == Field(b) + y
    ensures a == b && x == y
    decreases |a|
  {
    var left, right := Field(a) + x, Field(b) + y;
    assert left[0] == right[0];
    assert |b| > 0 ==> right[0] == b[0];
    if |a| == 0 {
      assert left[1..] == x && right[1..] == y;
    } else {
      assert left[0] == a[0];
      assert |b| > 0;
      assert left[1..] == Field(a[1..]) + x && right[1..] == Field(b[1..]) + y;
      FieldSplits(a[1..], x, b[1..], y);
      assert a == [a[0]] + a[1..] && b == [b[0]] + b[1..];
    }
  }

  lemma FixedSplits(a: seq<byte>, x: seq<byte>, b: seq<byte>, y: seq<byte>)
    requires |a| == |b|
    requires Field(a) + x == Field(b) + y
    ensures a == b && x == y
  {
    var left, right := Field(a) + x, Field(b) + y;
    assert left[..|a|] == a && right[..|a|] == b;
    assert left[|a| + 1..] == x && right[|a| + 1..] == y;
  }

  /** Metadata up to the one thing the stream does not show: absent or empty text. */
  function CanonStatic(g: StaticInfo): StaticInfo {
    g.(uuid := Some(TextOrEmpty(g.uuid)))
  }

  function CanonGres(gres: seq<StaticInfo>): seq<StaticInfo> {
    seq(|gres|, i requires 0 <= i < |gres| => CanonStatic(gres[i]))
  }

  function Canon(m: HostMetadata): HostMetadata {
    HostMetadata(m.hostname, Some(TextOrEmpty(m.driverVersion)), CanonGres(m.gres))
  }

  lemma StaticSplits(g: StaticInfo, x: seq<byte>, h: StaticInfo, y: seq<byte>)
    requires StaticStream(g) + x == StaticStream(h) + y
    ensures CanonStatic(g) == CanonStatic(h) && x == y
  {
    var g3, h3 := Field(Le64(g.memoryTotalMb)) + x, Field(Le64(h.memoryTotalMb)) + y;
    var g2, h2 := Field(TextOrEmpty(g.uuid)) + g3, Field(TextOrEmpty(h.uuid)) + h3;
    var g1, h1 := Field(g.name) + g2, Field(h.name) + h2;
    assert StaticStream(g) + x == Field([g.index]) + g1;
    assert StaticStream(h) + y == Field([h.index]) + h1;
    FixedSplits([g.index], g1, [h.index], h1);
    FieldSplits(g.name, g2, h.name, h2);
    FieldSplits(TextOrEmpty(g.uuid), g3, TextOrEmpty(h.uuid), h3);
    FixedSplits(Le64(g.memoryTotalMb), x, Le64(h.memoryTotalMb), y);
    Le64Injective(g.memoryTotalMb, h.memoryTotalMb);
  }

  lemma {:induction false} GresStreamInjective(a: seq<StaticInfo>, b: seq<StaticInfo>)
    requires GresStream(a) == GresStream(b)
    ensures CanonGres(a) == CanonGres(b)
    decreases |a|
  {
    if |a| == 0 || |b| == 0 {
      assert |GresStream(a)| == 0;
    } else {
      StaticSplits(a[0], GresStream(a[1..]), b[0], GresStream(b[1..]));
      GresStreamInjective(a[1..], b[1..]);
      assert CanonGres(a) == [CanonStatic(a[0])] + CanonGres(a[1..]);
      assert CanonGres(b) == [CanonStatic(b[0])] + CanonGres(b[1..]);
    }
  }

  lemma {:induction false} GresStreamCanon(gres: seq<StaticInfo>)
    ensures GresStream(CanonGres(gres)) == GresStream(gres)
  {
    if |gres| > 0 {
      GresStreamCanon(gres[1..]);
      assert CanonGres(gres)[1..] == CanonGres(gres[1..]);
    }
  }

  /** Two metadata records are hashed over the same bytes if and only if they are equal, taking an
      absent driver version or uuid and an empty one for the same. */
  lemma StreamInjective(m: HostMetadata, n: HostMetadata)
    ensures Stream(m) == Stream(n) <==> Canon(m) == Canon(n)
  {
    GresStreamCanon(m.gres);
    GresStreamCanon(n.gres);
    if Stream(m) == Stream(n) {
      var m1 := Field(TextOrEmpty(m.driverVersion)) + GresStream(m.gres);
      var n1 := Field(TextOrEmpty(n.driverVersion)) + GresStream(n.gres);
      assert Stream(m) == Field(m.hostname) + m1 && Stream(n) == Field(n.hostname) + n1;
      FieldSplits(m.hostname, m1, n.hostname, n1);
      FieldSplits(TextOrEmpty(m.driverVersion), GresStream(m.gres), TextOrEmpty(n.driverVersion), GresStream(n.gres));
      GresStreamInjective(m.gres, n.gres);
    }
  }

  // ---------------------------------------------------------------------------------------------
  // Every step is invertible.

  /** The inverse of the prime modulo 2^64. */
  const FNV_INVERSE: u64 := 0xce965057aff6957b
  const FNV_QUOTIENT: nat := 887285111055

  lemma TimesPrimeInjective(x: u64, y: u64)
    requires x * FNV_PRIME % TWO_64 == y * FNV_PRIME % TWO_64
    ensures x == y
  {
    TimesInverse(x);
    TimesInverse(y);
  }

  lemma TimesInverse(x: u64)
    ensures x * FNV_PRIME % TWO_64 * FNV_INVERSE % TWO_64 == x
  {
    assert FNV_PRIME * FNV_INVERSE == 1 + TWO_64 * FNV_QUOTIENT;
    var k := x * FNV_PRIME / TWO_64;
    var r := x * FNV_PRIME % TWO_64;
    assert x * FNV_PRIME == TWO_64 * k + r;
    assert r * FNV_INVERSE == x + TWO_64 * (x * FNV_QUOTIENT - k * FNV_INVERSE);
  }

  lemma XorFits(hash: u64, b: byte)
    ensures Xor(hash, b) < TWO_64
  {
    Pow2Of64();
    XorBound(hash, b, 64);
  }

  lemma StepInjective()
    ensures Injective(Step)
  {
    forall s: u64, t: u64, b: byte | Step(s, b) == Step(t, b)
      ensures s == t
    {
      XorFits(s, b);
      XorFits(t, b);
      TimesPrimeInjective(Xor(s, b), Xor(t, b));
      XorInvolutive(s, b);
      XorInvolutive(t, b);
    }
    forall s: u64, b: byte, c: byte | Step(s, b) == Step(s, c)
      ensures b == c
    {
      XorFits(s, b);
      XorFits(s, c);
      TimesPrimeInjective(Xor(s, b), Xor(s, c));
      XorCommutes(s, b);
      XorCommutes(s, c);
      XorInvolutive(b, s);
      XorInvolutive(c, s);
    }
  }

  /** Metadata whose streams differ in exactly one byte never collide. */
  lemma OneByteChangesHash(m: HostMetadata, n: HostMetadata, k: nat)
    requires DifferAt(Stream(m), Stream(n), k)
    ensures Hash(m) != Hash(n)
  {
    StepInjective();
    OneByteChangesFold(Step, FNV_OFFSET, Stream(m), Stream(n), k);
  }

  /** For instance: renaming a host by one byte always changes the hash. */
  lemma HostnameByteChangesHash(m: HostMetadata, hostname: Text, k: nat)
    requires DifferAt(m.hostname, hostname, k)
    ensures Hash(m) != Hash(m.(hostname := hostname))
  {
    var n := m.(hostname := hostname);
    var rest := Field(TextOrEmpty(m.driverVersion)) + GresStream(m.gres);
    assert Stream(m) == Field(m.hostname) + rest && Stream(n) == Field(hostname) + rest;
    OneByteChangesHash(m, n, k);
  }

  /** A host without a driver version and one with an empty driver version hash alike. */
  lemma AbsentAndEmptyHashAlike(hostname: Text, gres: seq<StaticInfo>)
    ensures var absent, empty := HostMetadata(hostname, None, gres), HostMetadata(hostname, Some([]), gres);
            absent != empty && Hash(absent) == Hash(empty)
  {
    var absent, empty := HostMetadata(hostname, None, gres), HostMetadata(hostname, Some([]), gres);
    StreamInjective(absent, empty);
  }

  /** One step from the start, on the byte zero: 64-bit FNV-1a of that byte. */
  lemma HashOfZeroByte()
    ensures Step(FNV_OFFSET, 0) == 0xaf63_bd4c_8601_b7df
  {
    XorZero(FNV_OFFSET);
    hide Xor;
    assert FNV_OFFSET * FNV_PRIME == 0xcb_f29c_e5de * TWO_64 + 0xaf63_bd4c_8601_b7df;
  }

  lemma {:induction false} XorZero(a: nat)
    ensures Xor(a, 0) == a
    decreases a
  {
    if a > 0 {
      XorZero(a / 2);
    }
  }
}
