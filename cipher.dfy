/** The TOC cipher `azp_cipher` (azp.c): a byte-at-a-time stream cipher whose
    state is a 32-bit key split into two 16-bit halves `x` (high) and `y` (low).
    The same procedure enciphers and deciphers. Words are `bv32` throughout,
    as the source's `uint32_t` locals are, so `x - 1` wraps exactly as in C. */
module TocCipher {
  import opened Bytes
  import opened Format
  import opened Seqs

  /** The state after one byte, and the byte produced. */
  datatype StepResult = StepResult(x: bv32, y: bv32, out: byte)

  /** The result of ciphering a run of bytes from a starting state. */
  datatype Ciphered = Ciphered(x: bv32, y: bv32, out: seq<byte>)

  /** Bytes produced by one call, with the key the call leaves behind. */
  datatype Keyed = Keyed(out: seq<byte>, key: bv32)

  function HighHalf(key: bv32): bv32 { 0xFFFF & (key >> 16) }
  function LowHalf(key: bv32): bv32 { 0xFFFF & key }
  function JoinHalves(x: bv32, y: bv32): bv32 { (x << 16) | y }

  /** The key with its two 16-bit halves exchanged. */
  function Swap(key: bv32): bv32 { JoinHalves(LowHalf(key), HighHalf(key)) }

  /** The 32-bit word the product `x * y` is folded into: `(lo16 - 1) ^ hi16`. */
  function Mix(tmp: bv32): bv32 {
    ((0xFFFF & tmp) - 1) ^ (0xFFFF & (tmp >> 16))
  }

  /** Splices the input byte `d` into the low byte of the mixed word,
      keeping its high byte; the low byte it replaces is the keystream mask. */
  function Splice(m: bv32, d: byte): StepResult {
    var x := (m & 0xFF00) | (d as bv32);
    var y := x ^ (m & 0xFF);
    StepResult(x, y, (y & 0xFF) as byte)
  }

  /** One iteration of the cipher loop on the state `(x, y)` and input byte `d`. */
  function Step(x: bv32, y: bv32, d: byte): StepResult {
    Splice(Mix(x * y), d)
  }

  /** The cipher loop over `data`, from the state `(x, y)`. */
  function Run(x: bv32, y: bv32, data: seq<byte>): (r: Ciphered)
    ensures |r.out| == |data|
    decreases |data|
  {
    if data == [] then Ciphered(x, y, [])
    else
      var s := Step(x, y, data[0]);
      var rest := Run(s.x, s.y, data[1..]);
      Ciphered(rest.x, rest.y, [s.out] + rest.out)
  }

  /** What `azp_cipher(data, |data|, &key)` produces and leaves in `key`; a
      zero-length call produces nothing and leaves the key alone. */
  function Cipher(data: seq<byte>, key: bv32): (r: Keyed)
    ensures |r.out| == |data|
  {
    if |data| == 0 then Keyed([], key)
    else
      var c := Run(HighHalf(key), LowHalf(key), data);
      Keyed(c.out, JoinHalves(c.x, c.y))
  }

  /** The output byte is the input byte XOR a mask that depends on the mixed
      word only, and so does the high byte carried into the next state. */
  lemma SpliceMask(m: bv32, d: byte)
    ensures Splice(m, d).out == d ^ Splice(m, 0).out
    ensures Splice(m, d).x & 0xFF00 == Splice(m, 0).x
    ensures Splice(m, d).x & 0xFF == d as bv32
  {
  }

  /** The keystream byte of a step depends on the state before it and not on
      the byte ciphered. */
  lemma StepMask(x: bv32, y: bv32, d: byte)
    ensures Step(x, y, d).out == d ^ Step(x, y, 0).out
    ensures Step(x, y, d).x & 0xFF00 == Step(x, y, 0).x
  {
    SpliceMask(Mix(x * y), d);
  }

  /** Deciphering the byte just enciphered from the same state gives the input
      back, and leaves the state with its halves exchanged. */
  lemma SpliceInverse(m: bv32, p: byte)
    ensures var e := Splice(m, p); var d := Splice(m, e.out);
      d.out == p && d.x == e.y && d.y == e.x && e.x <= 0xFFFF && e.y <= 0xFFFF
  {
    SpliceRestores(m, p);
    SpliceExchanges(m, p);
  }

  lemma SpliceRestores(m: bv32, p: byte)
    ensures Splice(m, Splice(m, p).out).out == p
  {
  }

  lemma SpliceExchanges(m: bv32, p: byte)
    ensures var e := Splice(m, p); var d := Splice(m, e.out);
      d.x == e.y && d.y == e.x && e.x <= 0xFFFF && e.y <= 0xFFFF
  {
    var e := Splice(m, p);
    var d := Splice(m, e.out);
    assert d.x == e.y;
    assert d.y == e.x;
    assert e.x <= 0xFFFF;
  }

  lemma StepInverse(x: bv32, y: bv32, p: byte)
    ensures var e := Step(x, y, p); var d := Step(x, y, e.out);
      d.out == p && d.x == e.y && d.y == e.x && e.x <= 0xFFFF && e.y <= 0xFFFF
  {
    SpliceInverse(Mix(x * y), p);
  }

  /** The product `x * y` does not see the order of the halves. */
  lemma StepSwap(x: bv32, y: bv32, d: byte)
    ensures Step(y, x, d) == Step(x, y, d)
  {
    assert y * x == x * y;
  }

  lemma RunSwap(x: bv32, y: bv32, p: seq<byte>)
    requires p != []
    ensures Run(y, x, p) == Run(x, y, p)
  {
    StepSwap(x, y, p[0]);
  }

  /** After at least one byte, both halves of the state fit in 16 bits. */
  lemma {:induction false} RunBounded(x: bv32, y: bv32, p: seq<byte>)
    requires p != []
    ensures Run(x, y, p).x <= 0xFFFF && Run(x, y, p).y <= 0xFFFF
    decreases |p|
  {
    var s := Step(x, y, p[0]);
    StepInverse(x, y, p[0]);
    if p[1..] != [] {
      RunBounded(s.x, s.y, p[1..]);
    }
  }

  /** Running the loop a second time, from the same state, over its own output
      (`e`) restores the input; the two final states are each other swapped. */
  lemma {:induction false} RunInverse(x: bv32, y: bv32, p: seq<byte>, e: Ciphered)
    requires e == Run(x, y, p)
    ensures var d := Run(x, y, e.out); d.out == p && (|p| > 0 ==> d.x == e.y && d.y == e.x)
    decreases |p|
  {
    if p != [] {
      var e1 := Step(x, y, p[0]);
      var d1 := Step(x, y, e1.out);
      StepInverse(x, y, p[0]);
      var er := Run(e1.x, e1.y, p[1..]);
      RunInverse(e1.x, e1.y, p[1..], er);
      // Deciphering continues from the swapped state, which masks alike.
      if p[1..] != [] {
        RunSwap(e1.x, e1.y, er.out);
      }
      var dr := Run(d1.x, d1.y, er.out);
      assert e.out == [e1.out] + er.out;
      ConsAppend([e1.out], er.out);
      assert Run(x, y, e.out) == Ciphered(dr.x, dr.y, [d1.out] + dr.out);
      HeadTail(p);
    }
  }

  lemma JoinSplit(x: bv32, y: bv32)
    requires x <= 0xFFFF && y <= 0xFFFF
    ensures HighHalf(JoinHalves(x, y)) == x && LowHalf(JoinHalves(x, y)) == y
  {
  }

  lemma SwapHalves(key: bv32)
    ensures HighHalf(Swap(key)) == LowHalf(key) && LowHalf(Swap(key)) == HighHalf(key)
  {
    JoinSplit(LowHalf(key), HighHalf(key));
  }

  /** Self-inverse: ciphering a run and ciphering the result again from the
      same key gives the run back; the key the decipher leaves is the key the
      encipher left with its halves swapped. */
  lemma CipherInvolution(p: seq<byte>, key: bv32)
    ensures Cipher(Cipher(p, key).out, key).out == p
    ensures |p| > 0 ==> Cipher(Cipher(p, key).out, key).key == Swap(Cipher(p, key).key)
  {
    if |p| > 0 {
      var x, y := HighHalf(key), LowHalf(key);
      var e := Run(x, y, p);
      RunInverse(x, y, p, e);
      RunBounded(x, y, p);
      JoinSplit(e.x, e.y);
    }
  }

  /** A key and its swap give the same masks: ciphering from either yields the
      same bytes and, when something was ciphered, the same final key. */
  lemma CipherSwap(p: seq<byte>, key: bv32)
    ensures Cipher(p, Swap(key)).out == Cipher(p, key).out
    ensures |p| > 0 ==> Cipher(p, Swap(key)).key == Cipher(p, key).key
  {
    SwapHalves(key);
    if |p| > 0 {
      RunSwap(HighHalf(key), LowHalf(key), p);
    }
  }

  /** Deciphering from a key equal to the enciphering key or to its swap
      restores the input and leaves the swap of the enciphering side's key.
      This is what lets one key be threaded through many calls. */
  lemma CipherInverse(p: seq<byte>, encKey: bv32, decKey: bv32)
    requires |p| > 0
    requires decKey == encKey || decKey == Swap(encKey)
    ensures Cipher(Cipher(p, encKey).out, decKey) == Keyed(p, Swap(Cipher(p, encKey).key))
  {
    var c := Cipher(p, encKey).out;
    CipherInvolution(p, encKey);
    if decKey != encKey {
      CipherSwap(c, encKey);
    }
  }

  /** Running the loop over two runs in succession, the state carried over,
      is running it over their concatenation. */
  lemma {:induction false} RunAppend(x: bv32, y: bv32, a: seq<byte>, b: seq<byte>, ra: Ciphered, rb: Ciphered)
    requires ra == Run(x, y, a) && rb == Run(ra.x, ra.y, b)
    ensures Run(x, y, a + b) == Ciphered(rb.x, rb.y, ra.out + rb.out)
    decreases |a|
  {
    if |a| == 0 {
      AppendEmpty(a, b);
      AppendEmpty(ra.out, rb.out);
    } else {
      var s := Step(x, y, a[0]);
      var rest := Run(s.x, s.y, a[1..]);
      ConsAppend(a, b);
      RunAppend(s.x, s.y, a[1..], b, rest, rb);
      AppendAssoc([s.out], rest.out, rb.out);
    }
  }

  /** Ciphering a run in two successive calls that share the key is ciphering
      it in one call. */
  lemma CipherAppend(a: seq<byte>, b: seq<byte>, key: bv32)
    ensures var ca := Cipher(a, key); var cb := Cipher(b, ca.key);
      Cipher(a + b, key) == Keyed(ca.out + cb.out, cb.key)
  {
    if |a| == 0 {
      AppendEmpty(a, b);
      AppendEmpty(Cipher(a, key).out, Cipher(b, key).out);
    } else if |b| == 0 {
      AppendNil(a, b);
      AppendNil(Cipher(a, key).out, Cipher(b, Cipher(a, key).key).out);
    } else {
      var x, y := HighHalf(key), LowHalf(key);
      var ra := Run(x, y, a);
      RunBounded(x, y, a);
      JoinSplit(ra.x, ra.y);
      RunAppend(x, y, a, b, ra, Run(ra.x, ra.y, b));
    }
  }

  /** `azp_cipher`: returns None (NULL) for a zero-length run and leaves the
      key alone; otherwise returns the ciphered bytes and updates the key to
      `(x << 16) | y` of the final loop state. The output is a fresh sequence
      rather than the source's static buffer. */
  method CipherBuffer(data: seq<byte>, key: bv32) returns (out: Option<seq<byte>>, key': bv32)
    ensures |data| == 0 ==> out == None && key' == key
    ensures |data| > 0 ==> out == Some(Cipher(data, key).out) && key' == Cipher(data, key).key
  {
    if |data| == 0 {
      return None, key;
    }
    var y: bv32 := 0xFFFF & key;
    var x: bv32 := 0xFFFF & (key >> 16);
    // Each pass runs the loop body of the source, which `Step` spells out.
    var output: seq<byte> := [];
    var i := 0;
    while i < |data|
      invariant 0 <= i <= |data|
      invariant var rest := Run(x, y, data[i..]);
        Run(HighHalf(key), LowHalf(key), data) == Ciphered(rest.x, rest.y, output + rest.out)
    {
      DropDrop(data, i, 1);
      var next := Step(x, y, data[i]);
      ghost var after := Run(next.x, next.y, data[i + 1..]);
      assert Run(x, y, data[i..]) == Ciphered(after.x, after.y, [next.out] + after.out);
      AppendAssoc(output, [next.out], after.out);
      x, y := next.x, next.y;
      output := output + [next.out];
      i := i + 1;
    }
    assert Run(x, y, data[i..]) == Ciphered(x, y, []);
    AppendNil(output, []);
    key' := (x << 16) | y;
    out := Some(output);
  }
}
