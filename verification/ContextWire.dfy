/**
 The portable encoding of a thread context: a 20-byte header and 720 bytes of fields, little-endian, in a
 fixed order and without padding.
 */
module ContextWire {
  import opened Options
  import opened LittleEndian

  const MAGIC := 0x314d4547
  const VERSION := 1
  const HEADER_SIZE := 20
  const LAYOUT_VERSION := 1
  const CONTEXT_SIZE := 720
  const WIRE_SIZE := HEADER_SIZE + CONTEXT_SIZE
  const INVARIANT_VIOLATION := 9

  /** A thread context; vector and x87 registers are pairs of 64-bit halves, low half first. */
  datatype Context = Context(
    layoutVersion: nat, contextSize: nat, x: seq<nat>, sp: nat, pc: nat,
    nzcv: nat, fpcr: nat, fpsr: nat, reserved0: nat, v: seq<nat>,
    rflags: nat, mxcsr: nat, fcw: nat, fsw: nat, x87: seq<nat>,
    teb: nat, originalX64Sp: nat, cookie: nat, isa: nat, stopReason: nat)

  predicate Shaped(c: Context) {
    |c.x| == 31 && |c.v| == 32 && |c.x87| == 16
  }

  /** `gem_context_is_valid`. */
  predicate ValidContext(c: Context)
    requires Shaped(c)
  {
    && c.layoutVersion == LAYOUT_VERSION && c.contextSize == CONTEXT_SIZE
    && c.teb != 0 && c.x[18] == c.teb && (c.isa == 1 || c.isa == 2)
  }

  /** The contexts that have an encoding. */
  predicate Encodable(c: Context)
    requires Shaped(c)
  {
    ValidContext(c) && c.reserved0 == 0 && c.stopReason <= INVARIANT_VIOLATION
  }

  // ---- Fields ----

  function Repeat(width: nat, count: nat): seq<nat> { seq(count, _ => width) }

  /** Header fields, then context fields, by width in bytes. */
  function Widths(): (ws: seq<nat>)
    ensures |ws| == 101
  {
    Repeat(4, 5)
    + Repeat(4, 2) + Repeat(8, 31) + Repeat(8, 2) + Repeat(4, 4) + Repeat(8, 32)
    + [8, 4, 2, 2] + Repeat(8, 16) + [8, 8, 8, 4, 4]
  }

  function Header(): seq<nat> {
    [MAGIC, VERSION, HEADER_SIZE, LAYOUT_VERSION, CONTEXT_SIZE]
  }

  function Values(c: Context): (vs: seq<nat>)
    requires Shaped(c)
    ensures |vs| == 101
  {
    Header()
    + [c.layoutVersion, c.contextSize] + c.x + [c.sp, c.pc] + [c.nzcv, c.fpcr, c.fpsr, c.reserved0] + c.v
    + [c.rflags, c.mxcsr, c.fcw, c.fsw] + c.x87 + [c.teb, c.originalX64Sp, c.cookie, c.isa, c.stopReason]
  }

  function FromValues(vs: seq<nat>): (c: Context)
    requires |vs| == 101
    ensures Shaped(c)
  {
    Context(
      vs[5], vs[6], vs[7..38], vs[38], vs[39], vs[40], vs[41], vs[42], vs[43], vs[44..76],
      vs[76], vs[77], vs[78], vs[79], vs[80..96], vs[96], vs[97], vs[98], vs[99], vs[100])
  }

  lemma FieldsOut(c: Context)
    requires Shaped(c)
    ensures FromValues(Values(c)) == c && Values(c)[..5] == Header()
  {
    var vs := Values(c);
    var s1 := Header() + [c.layoutVersion, c.contextSize];
    var s2 := s1 + c.x + [c.sp, c.pc] + [c.nzcv, c.fpcr, c.fpsr, c.reserved0];
    var s3 := s2 + c.v + [c.rflags, c.mxcsr, c.fcw, c.fsw];
    assert vs[7..38] == c.x && vs[44..76] == c.v && vs[80..96] == c.x87;
  }

  lemma FieldsIn(vs: seq<nat>)
    requires |vs| == 101 && vs[..5] == Header()
    ensures Values(FromValues(vs)) == vs
  {
    var w := Values(FromValues(vs));
    assert vs[0] == Header()[0] && vs[1] == Header()[1] && vs[2] == Header()[2] && vs[3] == Header()[3] && vs[4] == Header()[4];
    forall i | 0 <= i < 101 ensures w[i] == vs[i] {
      if 7 <= i < 38 {
        assert w[i] == vs[7..38][i - 7];
      } else if 44 <= i < 76 {
        assert w[i] == vs[44..76][i - 44];
      } else if 80 <= i < 96 {
        assert w[i] == vs[80..96][i - 80];
      }
    }
  }

  // ---- Sequences of integers ----

  function Total(ws: seq<nat>): nat {
    if ws == [] then 0 else ws[0] + Total(ws[1..])
  }

  ghost predicate Fit(vs: seq<nat>, ws: seq<nat>) {
    |vs| == |ws| && forall i :: 0 <= i < |vs| ==> vs[i] < Capacity(ws[i])
  }

  function EncodeAll(vs: seq<nat>, ws: seq<nat>): (s: seq<Byte>)
    requires |vs| == |ws|
    ensures |s| == Total(ws)
    decreases |vs|
  {
    if vs == [] then [] else Encode(vs[0], ws[0]) + EncodeAll(vs[1..], ws[1..])
  }

  function DecodeAll(s: seq<Byte>, ws: seq<nat>): (vs: seq<nat>)
    requires |s| == Total(ws)
    ensures |vs| == |ws|
    decreases |ws|
  {
    if ws == [] then [] else [Decode(s[..ws[0]])] + DecodeAll(s[ws[0]..], ws[1..])
  }

  lemma {:induction false} AllDecoded(vs: seq<nat>, ws: seq<nat>)
    requires Fit(vs, ws)
    ensures DecodeAll(EncodeAll(vs, ws), ws) == vs
    decreases |vs|
  {
    if vs != [] {
      var s := EncodeAll(vs, ws);
      DecodeEncode(vs[0], ws[0]);
      assert s[..ws[0]] == Encode(vs[0], ws[0]) && s[ws[0]..] == EncodeAll(vs[1..], ws[1..]);
      AllDecoded(vs[1..], ws[1..]);
    }
  }

  lemma FitCons(v: nat, w: nat, vs: seq<nat>, ws: seq<nat>)
    requires v < Capacity(w) && Fit(vs, ws)
    ensures Fit([v] + vs, [w] + ws)
  {
  }

  lemma EncodeCons(v: nat, w: nat, vs: seq<nat>, ws: seq<nat>)
    requires |vs| == |ws|
    ensures EncodeAll([v] + vs, [w] + ws) == Encode(v, w) + EncodeAll(vs, ws)
  {
    assert ([v] + vs)[1..] == vs && ([w] + ws)[1..] == ws;
  }

  lemma {:induction false} AllEncoded(s: seq<Byte>, ws: seq<nat>)
    requires |s| == Total(ws)
    ensures Fit(DecodeAll(s, ws), ws) && EncodeAll(DecodeAll(s, ws), ws) == s
    decreases |ws|
  {
    hide Encode, Decode, Fit, Capacity;
    if ws == [] {
      NothingFits();
    } else {
      var head, tail := s[..ws[0]], s[ws[0]..];
      EncodeDecode(head);
      DecodeBounded(head);
      AllEncoded(tail, ws[1..]);
      FitCons(Decode(head), ws[0], DecodeAll(tail, ws[1..]), ws[1..]);
      EncodeCons(Decode(head), ws[0], DecodeAll(tail, ws[1..]), ws[1..]);
      assert [ws[0]] + ws[1..] == ws && head + tail == s;
    }
  }

  lemma NothingFits()
    ensures Fit([], [])
  {
  }

  lemma {:induction false} EncodeSnoc(vs: seq<nat>, ws: seq<nat>, k: nat)
    requires |vs| == |ws| && k < |vs|
    ensures EncodeAll(vs[..k + 1], ws[..k + 1]) == EncodeAll(vs[..k], ws[..k]) + Encode(vs[k], ws[k])
    decreases |vs|
  {
    if k == 0 {
      assert vs[..1][1..] == [] && EncodeAll(vs[..0], ws[..0]) == [];
    } else {
      assert vs[..k + 1][1..] == vs[1..][..k] && ws[..k + 1][1..] == ws[1..][..k];
      assert vs[..k][1..] == vs[1..][..k - 1] && ws[..k][1..] == ws[1..][..k - 1];
      EncodeSnoc(vs[1..], ws[1..], k - 1);
    }
  }

  lemma {:induction false} TotalSplit(ws: seq<nat>, k: nat)
    requires k < |ws|
    ensures Total(ws[..k + 1]) == Total(ws[..k]) + ws[k] && Total(ws[..k + 1]) <= Total(ws)
    decreases |ws|
  {
    if k == 0 {
      assert ws[..1][1..] == [];
    } else {
      assert ws[..k + 1][1..] == ws[1..][..k] && ws[..k][1..] == ws[1..][..k - 1];
      TotalSplit(ws[1..], k - 1);
    }
  }

  lemma {:induction false} TotalAppend(a: seq<nat>, b: seq<nat>)
    ensures Total(a + b) == Total(a) + Total(b)
    decreases |a|
  {
    if a == [] {
      assert a + b == b;
    } else {
      assert (a + b)[1..] == a[1..] + b;
      TotalAppend(a[1..], b);
    }
  }

  lemma {:induction false} TotalRepeat(width: nat, count: nat)
    ensures Total(Repeat(width, count)) == width * count
    decreases count
  {
    if count > 0 {
      assert Repeat(width, count)[1..] == Repeat(width, count - 1);
      TotalRepeat(width, count - 1);
    }
  }

  /** The fields fill the wire format exactly. */
  lemma WidthsFill()
    ensures Total(Widths()) == WIRE_SIZE
  {
    hide Total;
    var a := Repeat(4, 5);
    var b := a + Repeat(4, 2);
    var c := b + Repeat(8, 31);
    var d := c + Repeat(8, 2);
    var e := d + Repeat(4, 4);
    var f := e + Repeat(8, 32);
    var g := f + [8, 4, 2, 2];
    var h := g + Repeat(8, 16);
    TotalRepeat(4, 5);
    TotalRepeat(4, 2);
    TotalRepeat(8, 31);
    TotalRepeat(8, 2);
    TotalRepeat(4, 4);
    TotalRepeat(8, 32);
    TotalRepeat(8, 16);
    TotalFew();
    TotalAppend(a, Repeat(4, 2));
    TotalAppend(b, Repeat(8, 31));
    TotalAppend(c, Repeat(8, 2));
    TotalAppend(d, Repeat(4, 4));
    TotalAppend(e, Repeat(8, 32));
    TotalAppend(f, [8, 4, 2, 2]);
    TotalAppend(g, Repeat(8, 16));
    TotalAppend(h, [8, 8, 8, 4, 4]);
  }

  lemma TotalFew()
    ensures Total([8, 4, 2, 2]) == 16 && Total([8, 8, 8, 4, 4]) == 32
  {
    assert [8, 4, 2, 2][1..] == [4, 2, 2] && [4, 2, 2][1..] == [2, 2] && [2, 2][1..] == [2] && [2][1..] == [];
    assert [8, 8, 8, 4, 4][1..] == [8, 8, 4, 4] && [8, 8, 4, 4][1..] == [8, 4, 4];
    assert [8, 4, 4][1..] == [4, 4] && [4, 4][1..] == [4] && [4][1..] == [];
  }

  // ---- The format ----

  /** The encoding of a context. */
  function Wire(c: Context): seq<Byte>
    requires Shaped(c)
  {
    EncodeAll(Values(c), Widths())
  }

  /** The context that a byte string encodes, if it encodes one. */
  function Parsed(s: seq<Byte>): (c: Option<Context>)
    ensures c.Some? ==> Shaped(c.value)
  {
    WidthsFill();
    if |s| != WIRE_SIZE then None
    else
      var vs := DecodeAll(s, Widths());
      var c := FromValues(vs);
      if vs[..5] == Header() && Encodable(c) then Some(c) else None
  }

  ghost predicate FieldsFit(c: Context)
    requires Shaped(c)
  {
    Fit(Values(c), Widths())
  }

  /** A byte string encodes a context exactly when the context is encodable and the string is its encoding. */
  lemma RoundTrips(c: Context, s: seq<Byte>)
    requires Shaped(c) && FieldsFit(c)
    ensures Parsed(s) == Some(c) <==> Encodable(c) && s == Wire(c)
  {
    hide Values, Widths, FromValues;
    WidthsFill();
    FieldsOut(c);
    AllDecoded(Values(c), Widths());
    if Parsed(s) == Some(c) {
      AllEncoded(s, Widths());
      FieldsIn(DecodeAll(s, Widths()));
    }
  }

  /** What comes off the wire fits its fields and encodes to the same bytes. */
  lemma ParsedFits(s: seq<Byte>)
    requires Parsed(s).Some?
    ensures FieldsFit(Parsed(s).value) && Wire(Parsed(s).value) == s
  {
    hide Values, Widths, FromValues;
    WidthsFill();
    AllEncoded(s, Widths());
    FieldsIn(DecodeAll(s, Widths()));
  }

  // ---- The format byte by byte ----

  /** Where each field of the encoding stands, and that nothing else is there. */
  ghost predicate LaidOut(s: seq<Byte>, c: Context)
    requires Shaped(c)
  {
    && |s| == 740
    && U32(s, 0) == 0x314d_4547 && U32(s, 4) == 1 && U32(s, 8) == 20 && U32(s, 12) == 1 && U32(s, 16) == 720
    && U32(s, 20) == c.layoutVersion && U32(s, 24) == c.contextSize
    && (forall i :: 0 <= i < 31 ==> U64(s, 28 + 8 * i) == c.x[i])
    && U64(s, 276) == c.sp && U64(s, 284) == c.pc
    && U32(s, 292) == c.nzcv && U32(s, 296) == c.fpcr && U32(s, 300) == c.fpsr && U32(s, 304) == c.reserved0
    && (forall i :: 0 <= i < 32 ==> U64(s, 308 + 8 * i) == c.v[i])
    && U64(s, 564) == c.rflags && U32(s, 572) == c.mxcsr && U16(s, 576) == c.fcw && U16(s, 578) == c.fsw
    && (forall i :: 0 <= i < 16 ==> U64(s, 580 + 8 * i) == c.x87[i])
    && U64(s, 708) == c.teb && U64(s, 716) == c.originalX64Sp && U64(s, 724) == c.cookie
    && U32(s, 732) == c.isa && U32(s, 736) == c.stopReason
  }

  /** Place and width of the k-th field. */
  ghost function Place(k: nat): (p: (nat, nat))
    requires k < 101
    ensures p.0 + p.1 <= 740 && p.1 in {2, 4, 8}
  {
    if k < 7 then (4 * k, 4) else if k < 38 then (28 + 8 * (k - 7), 8) else if k < 40 then (276 + 8 * (k - 38), 8)
    else if k < 44 then (292 + 4 * (k - 40), 4) else if k < 76 then (308 + 8 * (k - 44), 8)
    else if k == 76 then (564, 8) else if k == 77 then (572, 4) else if k < 80 then (576 + 2 * (k - 78), 2)
    else if k < 96 then (580 + 8 * (k - 80), 8) else if k < 99 then (708 + 8 * (k - 96), 8) else (732 + 4 * (k - 99), 4)
  }

  ghost function Word(s: seq<Byte>, p: (nat, nat)): nat
    requires p.0 + p.1 <= |s| && p.1 in {2, 4, 8}
  {
    if p.1 == 2 then U16(s, p.0) else if p.1 == 4 then U32(s, p.0) else U64(s, p.0)
  }

  lemma {:induction false} Placed(k: nat)
    requires k < 101
    ensures Place(k) == (Total(Widths()[..k]), Widths()[k])
    decreases k
  {
    hide Total;
    WidthAt(k);
    if k > 0 {
      Placed(k - 1);
      TotalSplit(Widths(), k - 1);
    } else {
      assert Widths()[..0] == [];
      NothingEncoded();
    }
  }

  lemma WidthAt(k: nat)
    requires k < 101
    ensures Widths()[k] == Place(k).1
  {
  }

  /** The k-th integer of a sequence is read where the ones before it end. */
  lemma {:induction false} DecodedAt(s: seq<Byte>, ws: seq<nat>, k: nat)
    requires |s| == Total(ws) && k < |ws|
    ensures Total(ws[..k]) + ws[k] <= |s| && DecodeAll(s, ws)[k] == Decode(s[Total(ws[..k])..Total(ws[..k]) + ws[k]])
    decreases |ws|
  {
    hide Decode, DecodeAll, Total;
    DecodeUnfolds(s, ws);
    if k == 0 {
      assert ws[..0] == [];
      NothingEncoded();
    } else {
      DecodedAt(s[ws[0]..], ws[1..], k - 1);
      TotalCons(ws, k);
      var at := Total(ws[1..][..k - 1]);
      assert s[ws[0]..][at..at + ws[k]] == s[ws[0] + at..ws[0] + at + ws[k]];
    }
  }

  lemma DecodeUnfolds(s: seq<Byte>, ws: seq<nat>)
    requires |s| == Total(ws) && ws != []
    ensures ws[0] <= |s| && |s[ws[0]..]| == Total(ws[1..])
    ensures DecodeAll(s, ws) == [Decode(s[..ws[0]])] + DecodeAll(s[ws[0]..], ws[1..])
  {
    hide Decode;
  }

  lemma TotalCons(ws: seq<nat>, k: nat)
    requires 0 < k <= |ws|
    ensures Total(ws[..k]) == ws[0] + Total(ws[1..][..k - 1])
  {
    assert ws[..k][1..] == ws[1..][..k - 1];
  }

  lemma WordIs(s: seq<Byte>, k: nat)
    requires |s| == Total(Widths()) == 740 && k < 101
    ensures DecodeAll(s, Widths())[k] == Word(s, Place(k))
  {
    hide Total, Decode, DecodeAll, U16, U32, U64, Widths, Place;
    Placed(k);
    DecodedAt(s, Widths(), k);
    var p := Place(k);
    if p.1 == 2 {
      Decoded16(s, p.0);
    } else if p.1 == 4 {
      Decoded32(s, p.0);
    } else {
      Decoded64(s, p.0);
    }
  }

  ghost predicate Words(s: seq<Byte>, vs: seq<nat>)
    requires |s| == 740 && |vs| == 101
  {
    forall k: nat :: k < 101 ==> Word(s, Place(k)) == vs[k]
  }

  lemma WordsAre(c: Context, s: seq<Byte>)
    requires Shaped(c)
    ensures LaidOut(s, c) <==> |s| == 740 && Words(s, Values(c))
  {
    hide LaidOut, Words, Values;
    if LaidOut(s, c) {
      WordsOut(c, s);
    }
    if |s| == 740 && Words(s, Values(c)) {
      WordsIn(c, s);
    }
  }

  lemma WordsOut(c: Context, s: seq<Byte>)
    requires Shaped(c) && LaidOut(s, c)
    ensures |s| == 740 && Words(s, Values(c))
  {
    hide U16, U32, U64;
    var vs := Values(c);
    forall k: nat | k < 101 ensures Word(s, Place(k)) == vs[k] {
      if 7 <= k < 38 {
        assert U64(s, 28 + 8 * (k - 7)) == c.x[k - 7];
      } else if 44 <= k < 76 {
        assert U64(s, 308 + 8 * (k - 44)) == c.v[k - 44];
      } else if 80 <= k < 96 {
        assert U64(s, 580 + 8 * (k - 80)) == c.x87[k - 80];
      }
    }
  }

  lemma WordsIn(c: Context, s: seq<Byte>)
    requires Shaped(c) && |s| == 740 && Words(s, Values(c))
    ensures LaidOut(s, c)
  {
    hide U16, U32, U64;
    var vs := Values(c);
    forall i | 0 <= i < 31 ensures U64(s, 28 + 8 * i) == c.x[i] {
      assert Word(s, Place(7 + i)) == vs[7 + i];
    }
    forall i | 0 <= i < 32 ensures U64(s, 308 + 8 * i) == c.v[i] {
      assert Word(s, Place(44 + i)) == vs[44 + i];
    }
    forall i | 0 <= i < 16 ensures U64(s, 580 + 8 * i) == c.x87[i] {
      assert Word(s, Place(80 + i)) == vs[80 + i];
    }
    assert Word(s, Place(0)) == vs[0] && Word(s, Place(1)) == vs[1] && Word(s, Place(2)) == vs[2];
    assert Word(s, Place(3)) == vs[3] && Word(s, Place(4)) == vs[4] && Word(s, Place(5)) == vs[5];
    assert Word(s, Place(6)) == vs[6] && Word(s, Place(38)) == vs[38] && Word(s, Place(39)) == vs[39];
    assert Word(s, Place(40)) == vs[40] && Word(s, Place(41)) == vs[41] && Word(s, Place(42)) == vs[42];
    assert Word(s, Place(43)) == vs[43] && Word(s, Place(76)) == vs[76] && Word(s, Place(77)) == vs[77];
    assert Word(s, Place(78)) == vs[78] && Word(s, Place(79)) == vs[79] && Word(s, Place(96)) == vs[96];
    assert Word(s, Place(97)) == vs[97] && Word(s, Place(98)) == vs[98] && Word(s, Place(99)) == vs[99];
    assert Word(s, Place(100)) == vs[100];
  }

  /** The encoding of a context is the byte string laid out like this; there is none exactly for values too wide. */
  lemma LaidOutExactly(c: Context, s: seq<Byte>)
    requires Shaped(c)
    ensures LaidOut(s, c) <==> FieldsFit(c) && s == Wire(c)
  {
    hide Values, Widths, LaidOut, Place, Word;
    WidthsFill();
    WordsAre(c, s);
    if |s| == 740 {
      forall k: nat | k < 101 ensures DecodeAll(s, Widths())[k] == Word(s, Place(k)) {
        WordIs(s, k);
      }
      AllEncoded(s, Widths());
      if Words(s, Values(c)) {
        assert DecodeAll(s, Widths()) == Values(c);
      }
    }
    if FieldsFit(c) {
      AllDecoded(Values(c), Widths());
    }
  }

  /** A byte string gives a context exactly when it is laid out like it and the context is acceptable. */
  lemma ParsedExactly(c: Context, s: seq<Byte>)
    requires Shaped(c)
    ensures Parsed(s) == Some(c) <==>
              && LaidOut(s, c) && c.layoutVersion == 1 && c.contextSize == 720 && c.reserved0 == 0
              && c.teb != 0 && c.x[18] == c.teb && 1 <= c.isa <= 2 && c.stopReason <= 9
  {
    hide Values, Widths, LaidOut, Parsed, Wire;
    LaidOutExactly(c, s);
    if Parsed(s).Some? {
      ParsedFits(s);
    }
    if FieldsFit(c) {
      RoundTrips(c, s);
    }
  }

  // ---- Writing and reading in place ----

  /** `put16`, `put32` and `put64`: the low bytes of a value, the lowest first. */
  method Put(b: array<Byte>, at: nat, v: nat, width: nat) returns (next: nat)
    requires at + width <= b.Length
    modifies b
    ensures next == at + width && b[..next] == old(b[..at]) + Encode(v, width) && b[next..] == old(b[next..])
  {
    var rest := v;
    var i := 0;
    while i < width
      invariant i <= width
      invariant b[..at + i] + Encode(rest, width - i) == old(b[..at]) + Encode(v, width)
      invariant b[at + i..] == old(b[at + i..])
    {
      b[at + i] := rest % 256;
      assert b[..at + i + 1] == b[..at + i] + [rest % 256];
      rest := rest / 256;
      i := i + 1;
    }
    next := at + width;
  }

  /** `get16`, `get32` and `get64`. */
  method Get(b: array<Byte>, at: nat, width: nat) returns (v: nat, next: nat)
    requires at + width <= b.Length
    ensures next == at + width && v == Decode(b[at..next])
  {
    v := 0;
    var i := width;
    while i > 0
      invariant 0 <= i <= width && v == Decode(b[at + i..at + width])
    {
      i := i - 1;
      assert b[at + i..at + width][1..] == b[at + i + 1..at + width];
      v := b[at + i] + 256 * v;
    }
    next := at + width;
  }

  /** `gem_context_serialize`: the encoding at the front of the buffer, or nothing at all. */
  method Serialize(c: Context, b: array<Byte>) returns (written: nat)
    requires Shaped(c)
    modifies b
    ensures written == if Encodable(c) && b.Length >= WIRE_SIZE then WIRE_SIZE else 0
    ensures b[..written] == (if written == 0 then [] else Wire(c)) && b[written..] == old(b[written..])
  {
    hide Values, Widths;
    WidthsFill();
    if !Encodable(c) || b.Length < WIRE_SIZE {
      return 0;
    }
    written := PutAll(b, Values(c), Widths());
  }

  /** Field after field at the front of a buffer. */
  method PutAll(b: array<Byte>, vs: seq<nat>, ws: seq<nat>) returns (at: nat)
    requires |vs| == |ws| && Total(ws) <= b.Length
    modifies b
    ensures at == Total(ws) && b[..at] == EncodeAll(vs, ws) && b[at..] == old(b[at..])
  {
    hide Total, Encode, EncodeAll;
    at := 0;
    NothingEncoded();
    assert ws[..0] == [] && vs[..0] == [];
    for k := 0 to |vs|
      invariant at == Total(ws[..k]) <= b.Length
      invariant b[..at] == EncodeAll(vs[..k], ws[..k]) && b[at..] == old(b[at..])
    {
      TotalSplit(ws, k);
      EncodeSnoc(vs, ws, k);
      at := Put(b, at, vs[k], ws[k]);
    }
    assert vs[..|vs|] == vs && ws[..|ws|] == ws;
  }

  lemma NothingEncoded()
    ensures Total([]) == 0 && EncodeAll([], []) == []
  {
  }

  /** The rest of a buffer, read one field further. */
  lemma DecodeStep(s: seq<Byte>, ws: seq<nat>, at: nat, k: nat)
    requires k < |ws| && at <= |s| && |s| - at == Total(ws[k..])
    ensures at + ws[k] <= |s| && |s| - (at + ws[k]) == Total(ws[k + 1..])
    ensures DecodeAll(s[at..], ws[k..]) == [Decode(s[at..at + ws[k]])] + DecodeAll(s[at + ws[k]..], ws[k + 1..])
  {
    assert ws[k..][0] == ws[k] && ws[k..][1..] == ws[k + 1..];
    assert s[at..][..ws[k]] == s[at..at + ws[k]] && s[at..][ws[k]..] == s[at + ws[k]..];
  }

  method GetAll(b: array<Byte>, ws: seq<nat>) returns (vs: seq<nat>)
    requires b.Length == Total(ws)
    ensures vs == DecodeAll(b[..], ws)
  {
    hide Total, Decode;
    ghost var s := b[..];
    vs := [];
    var at: nat := 0;
    assert ws[0..] == ws && s[0..] == s;
    for k := 0 to |ws|
      invariant at <= |s| && |s| - at == Total(ws[k..])
      invariant DecodeAll(s, ws) == vs + DecodeAll(s[at..], ws[k..])
    {
      DecodeStep(s, ws, at, k);
      var v;
      v, at := Get(b, at, ws[k]);
      vs := vs + [v];
    }
    assert ws[|ws|..] == [];
  }

  /** `gem_context_deserialize`: only a complete and acceptable encoding gives a context. */
  method Deserialize(b: array<Byte>) returns (c: Option<Context>)
    ensures c == Parsed(b[..])
  {
    hide Widths, FromValues;
    WidthsFill();
    if b.Length != WIRE_SIZE {
      return None;
    }
    var vs := GetAll(b, Widths());
    if vs[..5] != Header() {
      return None;
    }
    var context := FromValues(vs);
    c := if Encodable(context) then Some(context) else None;
  }
}
