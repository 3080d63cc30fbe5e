/** The packed mark word of a managed object.

    One 32-bit word holds three fields: the generation id in bits 0-5, the
    colour in bits 6-7 and the root reference count in bits 8-31. The
    functions below are the word-level macros of the collector; `Mark` is the
    three-field record the rest of the model works with, and the lemmas show
    that every macro acts on the record exactly as an update of one field.

    The word is an unsigned 32-bit integer. Masks and shifts are written as
    the arithmetic they denote on such a word: `w & 0xFF` is `w % 256`,
    `w >> 8` is `w / 256`, `r << 8` keeps the low 24 bits of `r` times 256,
    and an `|` of two values with disjoint bits is their sum. */
module MarkWord {

  /** The four colours, declared in the order of their two-bit codes. */
  datatype Color = White | Grey | Black | Silver

  /** Number of generations the 6-bit generation field can name. */
  const MaxGens: nat := 64
  /** The root count lives in the 24 bits above the low byte. */
  const MaxRoots: nat := 0x100_0000

  /** The decoded mark word. */
  datatype Mark = Mark(roots: nat, color: Color, gen: nat)

  /** A record that some word encodes. */
  predicate Fits(m: Mark) {
    m.roots < MaxRoots && m.gen < MaxGens
  }

  function ColorCode(c: Color): nat {
    match c
    case White => 0
    case Grey => 1
    case Black => 2
    case Silver => 3
  }

  // ---------------------------------------------------------------------
  // The macros, on the raw word.

  const WordSize: nat := 0x1_0000_0000

  /** A uint32 value. */
  type Word = w: int | 0 <= w < WordSize

  /** gc_set_mark: `(r << 8) | gi`, for a low byte `gi`. The shift drops the
      top 8 bits of `r`, so a count of -1 or of 2^24 wraps. */
  function SetMark(r: int, gi: nat): Word
    requires gi < 256
  {
    (r % MaxRoots) * 256 + gi
  }

  /** gc_gen_part: the low byte (colour and generation). */
  function GenPart(w: Word): nat {
    w % 256
  }

  /** gc_gen_num: the generation field. */
  function GenNum(w: Word): nat {
    w % 64
  }

  /** gc_color_bit: the colour field, in place (0x00, 0x40, 0x80 or 0xC0). */
  function ColorBit(w: Word): nat {
    (w % 256) / 64 * 64
  }

  /** gc_root_ref_count. */
  function RootRefCount(w: Word): nat {
    w / 256
  }

  /** gc_gen_set: keep root count and colour, replace the generation. */
  function GenSet(w: Word, g: nat): Word {
    SetMark(RootRefCount(w), ColorBit(w) + g % 64)
  }

  /** gc_mark_white: `w & 0xFFFFFF3F` clears both colour bits. */
  function MarkWhite(w: Word): Word {
    w - ColorBit(w)
  }

  /** gc_mark_grey: clear, then `| 0x40`. */
  function MarkGrey(w: Word): Word {
    MarkWhite(w) + 0x40
  }

  /** gc_mark_black: clear, then `| 0x80`. */
  function MarkBlack(w: Word): Word {
    MarkWhite(w) + 0x80
  }

  /** gc_mark_silver: `w | 0xC0` sets both colour bits whatever they were. */
  function MarkSilver(w: Word): Word {
    MarkWhite(w) + 0xC0
  }

  /** gc_inc_root_ref_count. */
  function IncRoot(w: Word): Word {
    SetMark(RootRefCount(w) + 1, GenPart(w))
  }

  /** gc_dec_root_ref_count. */
  function DecRoot(w: Word): Word {
    SetMark(RootRefCount(w) - 1, GenPart(w))
  }

  /** gc_color_is_white / grey / black / silver compare the colour field. */
  predicate IsWhite(w: Word) { ColorBit(w) == 0x00 }
  predicate IsGrey(w: Word) { ColorBit(w) == 0x40 }
  predicate IsBlack(w: Word) { ColorBit(w) == 0x80 }
  predicate IsSilver(w: Word) { ColorBit(w) == 0xC0 }

  // ---------------------------------------------------------------------
  // Codec between the word and the record.

  /** The colour named by a two-bit code. */
  function CodeColor(c: nat): Color
    requires c < 4
  {
    if c == 0 then White else if c == 1 then Grey else if c == 2 then Black else Silver
  }

  function ColorOf(w: Word): Color {
    CodeColor((w % 256) / 64)
  }

  /** Reads the three fields out of a word. */
  function Decode(w: Word): (m: Mark)
    ensures Fits(m)
  {
    Mark(RootRefCount(w), ColorOf(w), GenNum(w))
  }

  /** gc_set_mark(r, g | c << 6) for a record that fits. */
  function Encode(m: Mark): Word
    requires Fits(m)
  {
    SetMark(m.roots, ColorCode(m.color) * 64 + m.gen)
  }

  /** A word splits into its three fields. */
  lemma Split(w: Word)
    ensures w == RootRefCount(w) * 256 + (w % 256) / 64 * 64 + GenNum(w)
    ensures (w % 256) / 64 < 4 && RootRefCount(w) < MaxRoots
  {
  }

  /** Three fields in range compose into the word that splits back into them. */
  lemma Compose(r: nat, c: nat, g: nat)
    requires r < MaxRoots && c < 4 && g < 64
    ensures r * 256 + c * 64 + g < WordSize
    ensures RootRefCount(r * 256 + c * 64 + g) == r
    ensures ((r * 256 + c * 64 + g) % 256) / 64 == c
    ensures GenNum(r * 256 + c * 64 + g) == g
  {
    var lo := c * 64 + g;
    var w := r * 256 + lo;
    assert r * 256 <= (MaxRoots - 1) * 256;
    Div256(r, lo);
    Div64(c, g);
    assert w == (r * 4 + c) * 64 + g;
    Div64(r * 4 + c, g);
  }

  /** Division by 256 recovers quotient and remainder. */
  lemma Div256(q: int, rem: int)
    requires 0 <= rem < 256
    ensures (q * 256 + rem) / 256 == q && (q * 256 + rem) % 256 == rem
  {
  }

  /** Division by 64 recovers quotient and remainder. */
  lemma Div64(q: int, rem: int)
    requires 0 <= rem < 64
    ensures (q * 64 + rem) / 64 == q && (q * 64 + rem) % 64 == rem
  {
  }

  /** Colour predicates agree with the decoded colour. */
  lemma ColorTests(w: Word)
    ensures IsWhite(w) <==> Decode(w).color == White
    ensures IsGrey(w) <==> Decode(w).color == Grey
    ensures IsBlack(w) <==> Decode(w).color == Black
    ensures IsSilver(w) <==> Decode(w).color == Silver
  {
  }

  /** Decoding an encoded record gives the record back. */
  lemma DecodeEncode(m: Mark)
    requires Fits(m)
    ensures Decode(Encode(m)) == m
  {
    var c := ColorCode(m.color);
    assert Encode(m) == m.roots * 256 + c * 64 + m.gen;
    Compose(m.roots, c, m.gen);
  }

  /** Every word is the encoding of its decoded record: the codec is a bijection. */
  lemma EncodeDecode(w: Word)
    ensures Encode(Decode(w)) == w
  {
    Split(w);
  }

  /** Replacing the colour field by code `c` keeps root count and generation. */
  lemma Recolored(w: Word, c: nat)
    requires c < 4
    ensures w - ColorBit(w) + c * 64 < WordSize
    ensures Decode(w - ColorBit(w) + c * 64) == Decode(w).(color := CodeColor(c))
  {
    Split(w);
    var r, g := RootRefCount(w), GenNum(w);
    assert w - ColorBit(w) + c * 64 == r * 256 + c * 64 + g;
    Compose(r, c, g);
  }

  /** The colour setters change the colour field only. */
  lemma ColorSetters(w: Word)
    ensures Decode(MarkWhite(w)) == Decode(w).(color := White)
    ensures Decode(MarkGrey(w)) == Decode(w).(color := Grey)
    ensures Decode(MarkBlack(w)) == Decode(w).(color := Black)
    ensures Decode(MarkSilver(w)) == Decode(w).(color := Silver)
  {
    Recolored(w, 0);
    Recolored(w, 1);
    Recolored(w, 2);
    Recolored(w, 3);
  }

  /** gc_gen_set changes the generation field only, for a generation that fits. */
  lemma GenSetKeeps(w: Word, g: nat)
    requires g < MaxGens
    ensures Decode(GenSet(w, g)) == Decode(w).(gen := g)
  {
    Split(w);
    var r, c := RootRefCount(w), (w % 256) / 64;
    assert GenSet(w, g) == r * 256 + c * 64 + g;
    Compose(r, c, g);
  }

  /** Incrementing the root count below its ceiling adds one and keeps the low byte. */
  lemma IncRootKeeps(w: Word)
    requires Decode(w).roots + 1 < MaxRoots
    ensures Decode(IncRoot(w)) == Decode(w).(roots := Decode(w).roots + 1)
    ensures GenPart(IncRoot(w)) == GenPart(w)
  {
    Split(w);
    var r, c, g := RootRefCount(w), (w % 256) / 64, GenNum(w);
    assert GenPart(w) == c * 64 + g;
    assert IncRoot(w) == (r + 1) * 256 + c * 64 + g;
    Compose(r + 1, c, g);
  }

  /** At the ceiling the increment wraps the count to zero: the reason
      callers must stay below MaxRoots - 1 roots. */
  lemma IncRootWraps(w: Word)
    requires Decode(w).roots == MaxRoots - 1
    ensures Decode(IncRoot(w)).roots == 0
    ensures GenPart(IncRoot(w)) == GenPart(w)
  {
  }

  /** Decrementing a non-zero root count subtracts one and keeps the low byte. */
  lemma DecRootKeeps(w: Word)
    requires Decode(w).roots > 0
    ensures Decode(DecRoot(w)) == Decode(w).(roots := Decode(w).roots - 1)
    ensures GenPart(DecRoot(w)) == GenPart(w)
  {
    Split(w);
    var r, c, g := RootRefCount(w), (w % 256) / 64, GenNum(w);
    assert GenPart(w) == c * 64 + g;
    assert DecRoot(w) == (r - 1) * 256 + c * 64 + g;
    Compose(r - 1, c, g);
  }

  // ---------------------------------------------------------------------
  // The macros on the decoded record, as the collector calls them.

  /** gc_inc_root_ref_count, read back: one more root, the rest kept. */
  function WithRoot(m: Mark): (r: Mark)
    requires Fits(m) && m.roots + 1 < MaxRoots
    ensures r == m.(roots := m.roots + 1)
  {
    DecodeEncode(m);
    IncRootKeeps(Encode(m));
    Decode(IncRoot(Encode(m)))
  }

  /** gc_dec_root_ref_count, read back: one root fewer, the rest kept. */
  function WithoutRoot(m: Mark): (r: Mark)
    requires Fits(m) && m.roots > 0
    ensures r == m.(roots := m.roots - 1)
  {
    DecodeEncode(m);
    DecRootKeeps(Encode(m));
    Decode(DecRoot(Encode(m)))
  }

  /** gc_mark_grey, read back. */
  function Greyed(m: Mark): (r: Mark)
    requires Fits(m)
    ensures r == m.(color := Grey)
  {
    DecodeEncode(m);
    ColorSetters(Encode(m));
    Decode(MarkGrey(Encode(m)))
  }

  /** gc_color_is_silver_or_white on the encoded record. */
  function PaleMark(m: Mark): (b: bool)
    requires Fits(m)
    ensures b <==> m.color == White || m.color == Silver
  {
    DecodeEncode(m);
    ColorTests(Encode(m));
    IsSilver(Encode(m)) || IsWhite(Encode(m))
  }

  /** gc_color_is_black on the encoded record. */
  function BlackMark(m: Mark): (b: bool)
    requires Fits(m)
    ensures b <==> m.color == Black
  {
    DecodeEncode(m);
    ColorTests(Encode(m));
    IsBlack(Encode(m))
  }

  /** gc_root_ref_count(obj) != 0 on the encoded record. */
  function HasRoots(m: Mark): (b: bool)
    requires Fits(m)
    ensures b <==> m.roots > 0
  {
    DecodeEncode(m);
    RootRefCount(Encode(m)) != 0
  }
}
