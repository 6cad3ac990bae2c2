/**
 Composite glyph descriptions as the OpenType 'glyf' chapter lays them out, and the proof that the decoder
 lists the components that were written.
 */
module ComponentEncoding {
  import opened VirtualMemory
  import opened Wrappers
  import opened Sfnt
  import opened Glyphs
  import opened GlyphEncoding
  import R = Raster

  /** The transformation stored with a component. */
  datatype Transform = NoTransform | Scale(bytes: seq<Byte>) | XYScale(bytes: seq<Byte>) | TwoByTwo(bytes: seq<Byte>)

  /** One component: the glyph, its two arguments, whether they are offsets or point numbers, and whether they are
      stored as words.  `round`, `reserved` and `high` are the flag bits the decoder does not look at. */
  datatype Part = Part(glyph: nat, offsets: bool, words: bool, a: int, b: int, transform: Transform, round: bool, reserved: bool, high: nat)

  predicate LegalTransform(t: Transform) {
    match t
    case NoTransform => true
    case Scale(bytes) => |bytes| == 2
    case XYScale(bytes) => |bytes| == 4
    case TwoByTwo(bytes) => |bytes| == 8
  }

  predicate LegalPart(p: Part) {
    && p.glyph < 0x1_0000 && p.high < 128 && LegalTransform(p.transform)
    && (if p.words then -0x8000 <= p.a < 0x8000 && -0x8000 <= p.b < 0x8000 else -128 <= p.a < 128 && -128 <= p.b < 128)
  }

  function B(b: bool): (n: nat) ensures n < 2 { if b then 1 else 0 }

  /** The flag word, bit 0 first. */
  function FlagWord(p: Part, more: bool, instructions: bool): (w: nat) {
    B(p.words) + 2 * B(p.offsets) + 4 * B(p.round) + 8 * B(p.transform.Scale?) + 16 * B(p.reserved) + 32 * B(more)
    + 64 * B(p.transform.XYScale?) + 128 * B(p.transform.TwoByTwo?) + 256 * B(instructions) + 512 * p.high
  }

  function TransformBytes(t: Transform): (s: seq<Byte>) { if t.NoTransform? then [] else t.bytes }

  function ArgumentBytes(p: Part): (s: seq<Byte>)
    requires LegalPart(p)
  {
    if p.words then Big16(p.a) + Big16(p.b) else [p.a % 256, p.b % 256]
  }

  function PartBytes(p: Part, more: bool, instructions: bool): (s: seq<Byte>)
    requires LegalPart(p)
  {
    FlagsFit(p, more, instructions);
    Big16(FlagWord(p, more, instructions)) + Big16(p.glyph) + ArgumentBytes(p) + TransformBytes(p.transform)
  }

  /** The offset is that of the arguments, or none when they are point numbers. */
  function ComponentOf(p: Part): (c: Component) {
    Component(p.glyph, if p.offsets then p.a else 0, if p.offsets then p.b else 0)
  }

  ghost predicate AllLegal(parts: seq<Part>) { forall i :: 0 <= i < |parts| ==> LegalPart(parts[i]) }

  /** The components, each but the last announcing another, then the instructions if there are any. */
  function EncodeParts(parts: seq<Part>, instructions: Option<seq<Byte>>): (s: seq<Byte>)
    requires parts != [] && AllLegal(parts) && (instructions.Some? ==> |instructions.value| < 0x1_0000)
    decreases |parts|
  {
    if |parts| > 1 then PartBytes(parts[0], true, instructions.Some?) + EncodeParts(parts[1..], instructions)
    else PartBytes(parts[0], false, instructions.Some?) +
         (if instructions.Some? then Big16(|instructions.value|) + instructions.value else [])
  }

  function Components(parts: seq<Part>): (cs: seq<Component>) {
    if parts == [] then [] else [ComponentOf(parts[0])] + Components(parts[1..])
  }

  // ----- bits of the flag word -----

  lemma FlagsFit(p: Part, more: bool, instructions: bool)
    requires LegalPart(p)
    ensures FlagWord(p, more, instructions) < 0x1_0000
  {
    hide B;
  }

  lemma BitAt(low: nat, mask: nat, bit: nat, high: nat)
    requires low < mask && bit < 2
    ensures Has(low + mask * bit + 2 * mask * high, mask) <==> bit == 1
  {
    var f := low + mask * bit + 2 * mask * high;
    assert f == mask * (bit + 2 * high) + low;
    QuotientIs(f, mask, bit + 2 * high, low);
  }

  lemma FlagsRead(p: Part, more: bool, instructions: bool)
    requires LegalPart(p)
    ensures var w := FlagWord(p, more, instructions);
            && (Has(w, 1) <==> p.words) && (Has(w, 2) <==> p.offsets) && (Has(w, 8) <==> p.transform.Scale?)
            && (Has(w, 32) <==> more) && (Has(w, 64) <==> p.transform.XYScale?) && (Has(w, 128) <==> p.transform.TwoByTwo?)
            && (Has(w, 256) <==> instructions)
  {
    var w := FlagWord(p, more, instructions);
    var b0, b1, b2, b3, b4, b5 := B(p.words), B(p.offsets), B(p.round), B(p.transform.Scale?), B(p.reserved), B(more);
    var b6, b7, b8, h := B(p.transform.XYScale?), B(p.transform.TwoByTwo?), B(instructions), p.high;
    WordBits(b0, b1, b2, b3, b4, b5, b6, b7, b8, h);
    hide Has;
    assert w == b0 + 2 * b1 + 4 * b2 + 8 * b3 + 16 * b4 + 32 * b5 + 64 * b6 + 128 * b7 + 256 * b8 + 512 * h;
  }

  lemma WordBits(b0: nat, b1: nat, b2: nat, b3: nat, b4: nat, b5: nat, b6: nat, b7: nat, b8: nat, h: nat)
    requires b0 < 2 && b1 < 2 && b2 < 2 && b3 < 2 && b4 < 2 && b5 < 2 && b6 < 2 && b7 < 2 && b8 < 2
    ensures var w := b0 + 2 * b1 + 4 * b2 + 8 * b3 + 16 * b4 + 32 * b5 + 64 * b6 + 128 * b7 + 256 * b8 + 512 * h;
            && (Has(w, 1) <==> b0 == 1) && (Has(w, 2) <==> b1 == 1) && (Has(w, 8) <==> b3 == 1) && (Has(w, 32) <==> b5 == 1)
            && (Has(w, 64) <==> b6 == 1) && (Has(w, 128) <==> b7 == 1) && (Has(w, 256) <==> b8 == 1)
  {
    hide Has;
    var l3, l5 := b0 + 2 * b1 + 4 * b2, b0 + 2 * b1 + 4 * b2 + 8 * b3 + 16 * b4;
    var h5 := b6 + 2 * b7 + 4 * b8 + 8 * h;
    BitAt(0, 1, b0, b1 + 2 * b2 + 4 * b3 + 8 * b4 + 16 * b5 + 32 * h5);
    BitAt(b0, 2, b1, b2 + 2 * b3 + 4 * b4 + 8 * b5 + 16 * h5);
    BitAt(l3, 8, b3, b4 + 2 * b5 + 4 * h5);
    BitAt(l5, 32, b5, h5);
    BitAt(l5 + 32 * b5, 64, b6, b7 + 2 * b8 + 4 * h);
    BitAt(l5 + 32 * b5 + 64 * b6, 128, b7, b8 + 2 * h);
    BitAt(l5 + 32 * b5 + 64 * b6 + 128 * b7, 256, b8, h);
  }

  // ----- the round trip -----

  lemma ByteReads(v: int)
    requires -128 <= v < 128
    ensures S8(v % 256) == v
  {
  }

  lemma ReadsArguments(p: Part, head: seq<Byte>, after: seq<Byte>, flags: nat)
    requires LegalPart(p) && |head| == 4 && (Has(flags, 1) <==> p.words) && (Has(flags, 2) <==> p.offsets)
    ensures |ArgumentBytes(p)| == ArgBytes(flags)
    ensures Offset(head + ArgumentBytes(p) + after, flags) == if p.offsets then (p.a, p.b) else (0, 0)
  {
    hide Has, Big16, S8;
    var s := head + ArgumentBytes(p) + after;
    if p.words {
      SignedWord(p.a, Big16(p.b) + after);
      SignedWord(p.b, after);
      Shifted(s, 4, Big16(p.a) + (Big16(p.b) + after));
      Shifted(s, 6, Big16(p.b) + after);
    } else {
      ByteReads(p.a);
      ByteReads(p.b);
    }
  }

  lemma Shifted(s: seq<Byte>, at: nat, t: seq<Byte>)
    requires at + 2 <= |s| && s[at..] == t
    ensures S16(s, at) == S16(t, 0) && U16(s, at) == U16(t, 0)
  {
    assert s[at] == s[at..][0] && s[at + 1] == s[at..][1];
  }

  /** What was written for one component is read back, offsets and flags, and the rest is left. */
  lemma PartRoundTrip(p: Part, more: bool, instructions: bool, after: seq<Byte>)
    requires LegalPart(p)
    ensures ReadComponent(PartBytes(p, more, instructions) + after) == Some(Record(ComponentOf(p), FlagWord(p, more, instructions), after))
  {
    hide Has, Big16, FlagWord, Offset, ArgumentBytes, S16, U16, ReadComponent, ArgBytes, ScaleBytes, PartBytes;
    var w := FlagWord(p, more, instructions);
    var s := PartBytes(p, more, instructions) + after;
    PartLayout(p, more, instructions, after);
    PartWords(p, more, instructions, after);
    FlagsRead(p, more, instructions);
    var head := Big16(w) + Big16(p.glyph);
    ReadsArguments(p, head, TransformBytes(p.transform) + after, w);
    TransformLength(p, w);
    PartEnds(p, head, after, s);
    OneRecord(s, w, p.glyph, after);
  }

  lemma PartLayout(p: Part, more: bool, instructions: bool, after: seq<Byte>)
    requires LegalPart(p)
    ensures var head := Big16(FlagWord(p, more, instructions)) + Big16(p.glyph);
            PartBytes(p, more, instructions) + after == head + ArgumentBytes(p) + (TransformBytes(p.transform) + after)
  {
    hide Big16, FlagWord, ArgumentBytes, TransformBytes;
  }

  lemma PartWords(p: Part, more: bool, instructions: bool, after: seq<Byte>)
    requires LegalPart(p)
    ensures var s := PartBytes(p, more, instructions) + after;
            |s| >= 4 && U16(s, 0) == FlagWord(p, more, instructions) && U16(s, 2) == p.glyph
  {
    hide Big16, FlagWord, ArgumentBytes, U16, TransformBytes;
    FlagsFit(p, more, instructions);
    var w := FlagWord(p, more, instructions);
    var s := PartBytes(p, more, instructions) + after;
    var t := ArgumentBytes(p) + TransformBytes(p.transform) + after;
    assert s[0..] == Big16(w) + (Big16(p.glyph) + t);
    assert s[2..] == Big16(p.glyph) + t;
    Shifted(s, 0, Big16(w) + (Big16(p.glyph) + t));
    Shifted(s, 2, Big16(p.glyph) + t);
    First16(w, Big16(p.glyph) + t);
    First16(p.glyph, t);
  }

  lemma TransformLength(p: Part, w: nat)
    requires LegalPart(p) && (Has(w, 8) <==> p.transform.Scale?) && (Has(w, 64) <==> p.transform.XYScale?) && (Has(w, 128) <==> p.transform.TwoByTwo?)
    ensures |TransformBytes(p.transform)| == ScaleBytes(w)
  {
    hide Has;
  }

  lemma PartEnds(p: Part, head: seq<Byte>, after: seq<Byte>, s: seq<Byte>)
    requires LegalPart(p) && |head| == 4 && s == head + ArgumentBytes(p) + (TransformBytes(p.transform) + after)
    ensures var n := 4 + |ArgumentBytes(p)| + |TransformBytes(p.transform)|; |s| >= n && s[n..] == after
  {
    hide ArgumentBytes, TransformBytes;
  }

  lemma OneRecord(s: seq<Byte>, w: nat, glyph: nat, after: seq<Byte>)
    requires |s| >= 4 + ArgBytes(w) + ScaleBytes(w) && U16(s, 0) == w && U16(s, 2) == glyph && s[4 + ArgBytes(w) + ScaleBytes(w)..] == after
    ensures ReadComponent(s) == Some(Record(Component(glyph, Offset(s, w).0, Offset(s, w).1), w, after))
  {
    hide ArgBytes, ScaleBytes, U16, Offset;
  }

  /** A written composite description lists its components, in order, with their offsets. */
  lemma {:induction false} PartsRoundTrip(parts: seq<Part>, instructions: Option<seq<Byte>>, after: seq<Byte>)
    requires parts != [] && AllLegal(parts) && (instructions.Some? ==> |instructions.value| < 0x1_0000)
    ensures Listed(EncodeParts(parts, instructions) + after) == Some(Components(parts))
    decreases |parts|
  {
    hide ReadComponent, PartBytes, FlagWord, Has, Big16, InstructionsFit;
    var more := |parts| > 1;
    FlagsRead(parts[0], more, instructions.Some?);
    var b := PartBytes(parts[0], more, instructions.Some?);
    if more {
      var rest := EncodeParts(parts[1..], instructions) + after;
      assert EncodeParts(parts, instructions) + after == b + rest;
      PartRoundTrip(parts[0], true, instructions.Some?, rest);
      PartsRoundTrip(parts[1..], instructions, after);
    } else {
      var rest := (if instructions.Some? then Big16(|instructions.value|) + instructions.value else []) + after;
      assert EncodeParts(parts, instructions) + after == b + rest;
      PartRoundTrip(parts[0], false, instructions.Some?, rest);
      if instructions.Some? {
        InstructionsFollow(instructions.value, after);
      }
      assert Components(parts) == [ComponentOf(parts[0])] + Components(parts[1..]) == [ComponentOf(parts[0])];
    }
  }

  lemma InstructionsFollow(code: seq<Byte>, after: seq<Byte>)
    requires |code| < 0x1_0000
    ensures InstructionsFit(Big16(|code|) + code + after)
  {
    hide Big16, U16;
    assert Big16(|code|) + code + after == Big16(|code|) + (code + after);
    First16(|code|, code + after);
  }

  /** So a glyph whose description was written from these parts is the union of the glyphs they name, each moved by
      its offsets. */
  lemma WrittenComposite(f: Font, g: nat, depth: nat, parts: seq<Part>, instructions: Option<seq<Byte>>, after: seq<Byte>)
    requires ValidFont(f) && depth <= MAX_COMPONENT_DEPTH && GlyphData(f, g).Some?
    requires parts != [] && AllLegal(parts) && (instructions.Some? ==> |instructions.value| < 0x1_0000)
    requires var data := GlyphData(f, g).value;
             |data| >= 10 && S16(data, 0) < 0 && data[10..] == EncodeParts(parts, instructions) + after
    ensures var cs, r := Components(parts), LoadGlyph(f, g, depth);
            && (r.Some? <==> Loadable(f, cs, depth + 1) && WithinLimits(AllContours(f, cs, depth + 1)))
            && (r.Some? ==> R.WellFormed(r.value) && Contours(r.value) == AllContours(f, cs, depth + 1))
  {
    hide EncodeParts, Components, Loadable, WithinLimits, AllContours, LoadGlyph, GlyphData, Listed, Contours, R.WellFormed;
    PartsRoundTrip(parts, instructions, after);
    CompositeGlyph(f, g, depth);
  }
}
