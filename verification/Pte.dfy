/** Page-table entries: what the bits of a word mean, and what the masks of the pager do to it. */
module Pte {
  import opened Words

  /** The attribute bits of an entry that maps a page: bits 0-6, 8-11 and 52-63,
      and the PAT bit, which is bit 7 in a 4 KB entry and bit 12 in a larger one. */
  datatype Attributes = Attributes(low: nat, mid: nat, high: nat, pat: bool)

  predicate Present(w: nat) {
    w % 2 == 1
  }

  predicate PageSize(w: nat) {
    w / 0x80 % 2 == 1
  }

  /** Bits 12 to 51 in place: the address of a 4 KB frame or of a table. */
  function Frame(w: nat): nat {
    w / 0x1000 % 0x100_0000_0000 * 0x1000
  }

  /** The physical address an entry at the given height maps its first byte to. */
  function LeafBase(height: nat, w: nat): nat {
    if height == 0 then Frame(w) else w / 0x2000 % 0x80_0000_0000 * 0x2000
  }

  function LeafAttributes(height: nat, w: nat): Attributes {
    Attributes(w % 0x80, w / 0x100 % 0x10, w / 0x10_0000_0000_0000,
               if height == 0 then PageSize(w) else w / 0x1000 % 2 == 1)
  }

  /** What an entry lets be done with the memory below it: bits 1 (R/W), 2 (U/S) and 63 (no execute). */
  datatype Rights = Rights(write: bool, user: bool, execute: bool)

  function EntryRights(w: nat): Rights {
    Rights(w / 2 % 2 == 1, w / 4 % 2 == 1, w / 0x8000_0000_0000_0000 % 2 == 0)
  }

  /** The rights that remain where both must agree. */
  function Meet(a: Rights, b: Rights): Rights {
    Rights(a.write && b.write, a.user && b.user, a.execute && b.execute)
  }

  const ALL_RIGHTS: Rights := Rights(true, true, true)

  /** Whoever may do something under b may do it under a. */
  predicate Wider(a: Rights, b: Rights) {
    (b.write ==> a.write) && (b.user ==> a.user) && (b.execute ==> a.execute)
  }

  /** Entries that may map a page: 4 KB ones, and 2 MB and 1 GB ones whose reserved frame bits are zero. */
  predicate LeafWord(height: nat, w: nat) {
    && Present(w)
    && height <= 2
    && (height == 1 ==> PageSize(w) && w / 0x2000 % 0x100 == 0)
    && (height == 2 ==> PageSize(w) && w / 0x2000 % 0x2_0000 == 0)
  }

  /** Entries that point to the table at physical address pa. */
  predicate TableWord(w: nat, pa: nat) {
    Present(w) && !PageSize(w) && Frame(w) == pa
  }

  predicate FrameAddress(pa: nat) {
    pa % 0x1000 == 0 && pa < 0x10_0000_0000_0000
  }

  /** Preferences a caller may pass: attribute bits only, no frame bit, no page-size bit. */
  predicate Preferences(prefs: u64) {
    Frame(prefs) == 0 && !PageSize(prefs)
  }

  // The words the pager builds, as its code writes them.

  function NewTableEntry(pa: nat): nat {
    Or(pa, 3)
  }

  function NewLeafEntry(pa: nat, prefs: u64): nat {
    Or(Or(pa, 3), prefs)
  }

  const LARGE_FRAME_BITS: u64 := Not(0xFFF0_0000_001F_FFFF)
  const LARGE_PREF_BITS: u64 := 0xFFF0_0000_001F_FFFF

  function SplitTableEntry(w: nat, pa: nat): nat {
    Or(pa, And(And(w, LARGE_PREF_BITS), Not(0x1080)))
  }

  /** Size in bytes of the linear range one entry at the given height spans. */
  function ChildSize(height: nat): nat
    requires height <= 3
  {
    match height
    case 0 => 0x1000
    case 1 => 0x20_0000
    case 2 => 0x4000_0000
    case 3 => 0x80_0000_0000
  }

  function SplitLeafEntry(height: nat, w: nat, j: nat): nat
    requires 1 <= height <= 2
  {
    var frame := And(w, LARGE_FRAME_BITS) + ChildSize(height) / 512 * j;
    var prefs := And(w, LARGE_PREF_BITS);
    if height == 2 then Or(frame, prefs)
    else Or(Or(frame, And(prefs, Not(0x1080))), And(prefs, 0x1000) / 0x20)
  }

  // A word as its fields.

  /** Bits 0-6, bit 7, bits 8-11, bit 12, bits 13-51 and bits 52 on. */
  datatype Fields = Fields(low: nat, size: nat, mid: nat, pat: nat, frame: nat, high: nat) {
    predicate Valid() {
      low < 0x80 && size < 2 && mid < 0x10 && pat < 2 && frame < 0x80_0000_0000 && high < 0x1000
    }
    function Word(): nat {
      low + 0x80 * size + 0x100 * mid + 0x1000 * pat + 0x2000 * frame + 0x10_0000_0000_0000 * high
    }
  }

  lemma FieldsOf(w: u64) returns (f: Fields)
    ensures f.Valid() && f.Word() == w
  {
    var a, low := Divide(w, 0x80);
    var b, size := Divide(a, 2);
    var c, mid := Divide(b, 0x10);
    var d, pat := Divide(c, 2);
    var high, frame := Divide(d, 0x80_0000_0000);
    f := Fields(low, size, mid, pat, frame, high);
  }

  lemma WordDivisions(f: Fields)
    requires f.Valid()
    ensures var w := f.Word();
      && w % 0x80 == f.low && w / 0x80 % 2 == f.size && w / 0x100 % 0x10 == f.mid && w / 0x1000 % 2 == f.pat
      && w / 0x2000 % 0x80_0000_0000 == f.frame && w / 0x10_0000_0000_0000 == f.high
      && w / 0x1000 % 0x100_0000_0000 == f.pat + 2 * f.frame
      && w / 0x2000 == f.frame + 0x80_0000_0000 * f.high
      && w < TWO_64
  {
    var w := f.Word();
    var d := f.frame + 0x80_0000_0000 * f.high;
    var c := f.pat + 2 * d;
    var b := f.mid + 0x10 * c;
    var a := f.size + 2 * b;
    var low8 := f.low + 0x80 * f.size;
    var low12 := low8 + 0x100 * f.mid;
    DivModUnique(w, 0x80, a, f.low);
    DivModUnique(a, 2, b, f.size);
    DivModUnique(w, 0x100, b, low8);
    DivModUnique(b, 0x10, c, f.mid);
    DivModUnique(w, 0x1000, c, low12);
    DivModUnique(c, 2, d, f.pat);
    DivModUnique(c, 0x100_0000_0000, f.high, f.pat + 2 * f.frame);
    DivModUnique(w, 0x2000, d, low12 + 0x1000 * f.pat);
    DivModUnique(d, 0x80_0000_0000, f.high, f.frame);
    DivModUnique(w, 0x10_0000_0000_0000, f.high, low12 + 0x1000 * f.pat + 0x2000 * f.frame);
  }

  lemma WordParity(f: Fields)
    requires f.Valid()
    ensures Present(f.Word()) <==> f.low % 2 == 1
  {
    var rest, bit := Divide(f.low, 2);
    DivModUnique(f.Word(), 2, rest + 0x40 * f.size + 0x80 * f.mid + 0x800 * f.pat + 0x1000 * f.frame
                              + 0x8_0000_0000_0000 * f.high, bit);
  }

  /** The low bits of the frame, which must be zero for a large page, do not see the bits above it. */
  lemma FrameRemainder(f: Fields)
    requires f.Valid()
    ensures f.Word() / 0x2000 % 0x100 == f.frame % 0x100
    ensures f.Word() / 0x2000 % 0x2_0000 == f.frame % 0x2_0000
  {
    WordDivisions(f);
    var q := f.frame + 0x80_0000_0000 * f.high;
    var g, r := Divide(f.frame, 0x100);
    DivModUnique(q, 0x100, g + 0x8000_0000 * f.high, r);
    var g', r' := Divide(f.frame, 0x2_0000);
    DivModUnique(q, 0x2_0000, g' + 0x40_0000 * f.high, r');
  }

  lemma FieldMeaning(f: Fields)
    requires f.Valid()
    ensures var w := f.Word();
      && w < TWO_64
      && (Present(w) <==> f.low % 2 == 1) && (PageSize(w) <==> f.size == 1)
      && Frame(w) == 0x1000 * f.pat + 0x2000 * f.frame
      && LeafBase(0, w) == 0x1000 * f.pat + 0x2000 * f.frame
      && (forall h: nat :: 1 <= h ==> LeafBase(h, w) == 0x2000 * f.frame)
      && LeafAttributes(0, w) == Attributes(f.low, f.mid, f.high, f.size == 1)
      && (forall h: nat :: 1 <= h ==> LeafAttributes(h, w) == Attributes(f.low, f.mid, f.high, f.pat == 1))
  {
    hide Present;
    WordDivisions(f);
    WordParity(f);
  }

  lemma LeafWordFields(f: Fields)
    requires f.Valid()
    ensures LeafWord(0, f.Word()) <==> f.low % 2 == 1
    ensures LeafWord(1, f.Word()) <==> f.low % 2 == 1 && f.size == 1 && f.frame % 0x100 == 0
    ensures LeafWord(2, f.Word()) <==> f.low % 2 == 1 && f.size == 1 && f.frame % 0x2_0000 == 0
  {
    hide Present;
    WordDivisions(f);
    WordParity(f);
    FrameRemainder(f);
  }

  // What the masks select.

  lemma SingleBits(f: Fields)
    requires f.Valid()
    ensures And(f.Word(), 1) == f.low % 2
    ensures And(f.Word(), 0x80) == 0x80 * f.size
    ensures And(f.Word(), 0x1000) == 0x1000 * f.pat
  {
    hide Pow2, And;
    Pow2Values();
    var d := f.frame + 0x80_0000_0000 * f.high;
    var c := f.pat + 2 * d;
    var b := f.mid + 0x10 * c;
    var rest, bit := Divide(f.low, 2);
    AndSelects(0, bit, rest + 0x40 * f.size + 0x80 * b, 0, 1, 1, 2);
    AndSelects(f.low, f.size, b, 7, 1, 0x80, 2);
    AndSelects(f.low + 0x80 * f.size + 0x100 * f.mid, f.pat, d, 12, 1, 0x1000, 2);
  }

  lemma FrameBits(f: Fields)
    requires f.Valid()
    ensures And(f.Word(), Not(0xFFF0_0000_0000_0FFF)) == 0x1000 * f.pat + 0x2000 * f.frame
    ensures f.frame % 0x100 == 0 ==> And(f.Word(), LARGE_FRAME_BITS) == 0x2000 * f.frame
  {
    hide Pow2, And;
    Pow2Values();
    var low := f.low + 0x80 * f.size + 0x100 * f.mid;
    AndSelects(low, f.pat + 2 * f.frame, f.high, 12, 40, 0x1000, 0x100_0000_0000);
    var g, r := Divide(f.frame, 0x100);
    if r == 0 {
      AndSelects(low + 0x1000 * f.pat, g, f.high, 21, 31, 0x20_0000, 0x8000_0000);
    }
  }

  /** Clearing bits 7 and 12. */
  lemma ClearPatAndSize(f: Fields)
    requires f.Valid() && f.Word() < TWO_64
    ensures And(f.Word(), Not(0x1080)) == f.(size := 0, pat := 0).Word()
  {
    hide Pow2, And;
    Pow2Values();
    var low, up := f.low + 0x80 * f.size + 0x100 * f.mid, f.pat + 2 * (f.frame + 0x80_0000_0000 * f.high);
    AndParts(low, up, 0x80, 1, 12, 0x1000);
    AndSelects(f.low, f.size, f.mid, 7, 1, 0x80, 2);
    AndSelects(0, f.pat, f.frame + 0x80_0000_0000 * f.high, 0, 1, 1, 2);
    AndNot(f.Word(), 0x1080);
  }

  // What the built words mean.

  /** Or-ing attribute bits (below bit 12 and from bit 52 on) into a frame address adds them. */
  lemma OrFrame(n: nat, low: nat, high: nat)
    requires n < 0x100_0000_0000 && low < 0x1000
    ensures Or(0x1000 * n, low + 0x10_0000_0000_0000 * high) == 0x1000 * n + low + 0x10_0000_0000_0000 * high
  {
    hide Pow2;
    Pow2Values();
    OrParts(0, n, low, 0x100_0000_0000 * high, 12, 0x1000);
    OrAdds(n, high, 40, 0x100_0000_0000);
  }

  /** The same for the frame of a large page, whose bit 12 is an attribute too. */
  lemma OrLargeFrame(n: nat, low: nat, high: nat)
    requires n < 0x80_0000_0000 && low < 0x2000
    ensures Or(0x2000 * n, low + 0x10_0000_0000_0000 * high) == 0x2000 * n + low + 0x10_0000_0000_0000 * high
  {
    hide Pow2;
    Pow2Values();
    OrParts(0, n, low, 0x80_0000_0000 * high, 13, 0x2000);
    OrAdds(n, high, 39, 0x80_0000_0000);
  }

  /** Or-ing bit 7 into a word that has it clear adds it. */
  lemma OrPatBit(low: nat, pat: nat, above: nat)
    requires low < 0x80 && pat < 2
    ensures Or(low + 0x100 * above, 0x80 * pat) == low + 0x80 * pat + 0x100 * above
  {
    hide Pow2, Or;
    Pow2Values();
    OrParts(low, 2 * above, 0, pat, 7, 0x80);
    OrZeroRight(low);
    OrAdds(pat, above, 1, 2);
  }

  /** Or-ing 3 sets the two low bits. */
  lemma OrThree(b: nat)
    ensures Or(3, b) == 3 + b / 4 * 4
  {
    OrStep(3, b);
    OrStep(1, b / 2);
  }

  /** The rights an entry gives are among its attributes, at every height. */
  lemma RightsInAttributes(height: nat, w: nat)
    ensures var a := LeafAttributes(height, w);
      EntryRights(w) == Rights(a.low / 2 % 2 == 1, a.low / 4 % 2 == 1, a.high / 0x800 % 2 == 0)
  {
    hide PageSize;
    LowBits(w);
    HighBit(w);
  }

  lemma LowBits(w: nat)
    ensures w / 2 % 2 == w % 0x80 / 2 % 2 && w / 4 % 2 == w % 0x80 / 4 % 2
  {
    var rest, low := Divide(w, 0x80);
    var l1, b0 := Divide(low, 2);
    var l2, b1 := Divide(l1, 2);
    var l3, b2 := Divide(l2, 2);
    DivModUnique(low, 4, l2, b0 + 2 * b1);
    DivModUnique(w, 2, l1 + 0x40 * rest, b0);
    DivModUnique(w, 4, l2 + 0x20 * rest, b0 + 2 * b1);
    DivModUnique(l1 + 0x40 * rest, 2, l2 + 0x20 * rest, b1);
    DivModUnique(l2 + 0x20 * rest, 2, l3 + 0x10 * rest, b2);
  }

  lemma HighBit(w: nat)
    ensures w / 0x8000_0000_0000_0000 == w / 0x10_0000_0000_0000 / 0x800
  {
    var high, mid := Divide(w, 0x10_0000_0000_0000);
    var top, bits := Divide(high, 0x800);
    DivModUnique(w, 0x8000_0000_0000_0000, top, mid + 0x10_0000_0000_0000 * bits);
  }

  /** The entry for a new table is present, and lets all below it be written and executed, but not by user programs. */
  lemma NewTableEntryMeaning(pa: nat)
    requires FrameAddress(pa)
    ensures TableWord(NewTableEntry(pa), pa) && NewTableEntry(pa) < TWO_64
    ensures NewTableEntry(pa) == pa + 3 && EntryRights(NewTableEntry(pa)) == Rights(true, false, true)
  {
    hide Present, PageSize, Frame, Or, EntryRights;
    var n, zero := Divide(pa, 0x1000);
    OrFrame(n, 3, 0);
    var frame, pat := Divide(n, 2);
    FieldMeaning(Fields(3, 0, 0, pat, frame, 0));
    RightsInAttributes(1, NewTableEntry(pa));
  }

  /** What the preferences give: the write right always, the others as they say. */
  function PreferenceRights(prefs: u64): Rights {
    Rights(true, prefs / 4 % 2 == 1, prefs / 0x8000_0000_0000_0000 % 2 == 0)
  }

  /** The attributes an entry gets from the preferences passed to `pagein`: present, writable, and theirs. */
  function PreferenceAttributes(prefs: u64): Attributes {
    Attributes(Or(3, prefs % 0x80), prefs / 0x100 % 0x10, prefs / 0x10_0000_0000_0000, false)
  }

  /** A fresh 4 KB entry maps the frame it was built from, with PAT clear, and gives the rights of the preferences. */
  lemma NewLeafEntryMeaning(pa: nat, prefs: u64)
    requires FrameAddress(pa) && Preferences(prefs)
    ensures var w := NewLeafEntry(pa, prefs);
      && w < TWO_64 && LeafWord(0, w) && !PageSize(w)
      && LeafBase(0, w) == pa && LeafAttributes(0, w) == PreferenceAttributes(prefs)
      && w == pa + prefs / 4 * 4 + 3 && EntryRights(w) == PreferenceRights(prefs)
  {
    hide Or, Present, PageSize, Frame, LeafBase, LeafAttributes, LeafWord, Preferences, PreferenceAttributes,
      EntryRights, PreferenceRights;
    var n, zero := Divide(pa, 0x1000);
    var p := FieldsOf(prefs);
    PreferenceFields(p);
    NewLeafFields(n, p);
    NewLeafValue(n, p);
    LowTwo(p);
    RightsInAttributes(0, NewLeafEntry(pa, prefs));
    RightsPreferred(prefs);
  }

  lemma LowTwo(p: Fields)
    requires p.Valid() && p.size == p.pat == p.frame == 0
    ensures p.Word() / 4 * 4 == p.low / 4 * 4 + 0x100 * p.mid + 0x10_0000_0000_0000 * p.high
  {
    var q, r := Divide(p.low, 4);
    DivModUnique(p.Word(), 4, q + 0x40 * p.mid + 0x4_0000_0000_0000 * p.high, r);
  }

  lemma RightsPreferred(prefs: u64)
    ensures var a := PreferenceAttributes(prefs);
      PreferenceRights(prefs) == Rights(a.low / 2 % 2 == 1, a.low / 4 % 2 == 1, a.high / 0x800 % 2 == 0)
  {
    hide Or, PageSize;
    RightsInAttributes(0, prefs);
    OrThree(prefs % 0x80);
  }

  lemma PreferenceFields(p: Fields)
    requires p.Valid() && p.Word() < TWO_64 && Preferences(p.Word())
    ensures p.size == p.pat == p.frame == 0
    ensures PreferenceAttributes(p.Word()) == Attributes(Or(3, p.low), p.mid, p.high, false)
  {
    hide Or, Present, PageSize, Frame, LeafBase, LeafAttributes;
    FieldMeaning(p);
    WordDivisions(p);
  }

  lemma NewLeafFields(n: nat, p: Fields)
    requires n < 0x100_0000_0000 && p.Valid() && p.size == p.pat == p.frame == 0 && p.Word() < TWO_64
    ensures var w := NewLeafEntry(0x1000 * n, p.Word());
      && w < TWO_64 && LeafWord(0, w) && !PageSize(w) && LeafBase(0, w) == 0x1000 * n
      && LeafAttributes(0, w) == Attributes(Or(3, p.low), p.mid, p.high, false)
  {
    hide Or, Present, PageSize, Frame, LeafBase, LeafAttributes, LeafWord;
    var frame, pat := Divide(n, 2);
    OrThree(p.low);
    var f := Fields(p.low / 4 * 4 + 3, 0, p.mid, pat, frame, p.high);
    NewLeafValue(n, p);
    FieldMeaning(f);
    LeafWordFields(f);
  }

  lemma NewLeafValue(n: nat, p: Fields)
    requires n < 0x100_0000_0000 && p.Valid() && p.size == p.pat == p.frame == 0 && p.Word() < TWO_64
    ensures NewLeafEntry(0x1000 * n, p.Word())
         == p.low / 4 * 4 + 3 + 0x100 * p.mid + 0x1000 * n + 0x10_0000_0000_0000 * p.high
  {
    hide Or, Pow2;
    Pow2Values();
    OrFrame(n, 3, 0);
    var low, high := p.low + 0x100 * p.mid, 0x100_0000_0000 * p.high;
    OrParts(3, n, low, high, 12, 0x1000);
    OrThree(low);
    OrAdds(n, p.high, 40, 0x100_0000_0000);
  }

  /** What the large-page masks leave of an entry that maps one. */
  lemma LargeEntryParts(f: Fields)
    requires f.Valid() && f.frame % 0x100 == 0
    ensures f.Word() < TWO_64
    ensures And(f.Word(), LARGE_FRAME_BITS) == 0x2000 * f.frame
    ensures And(f.Word(), LARGE_PREF_BITS) == f.(frame := 0).Word()
    ensures And(And(f.Word(), LARGE_PREF_BITS), Not(0x1080)) == f.(size := 0, pat := 0, frame := 0).Word()
    ensures And(And(f.Word(), LARGE_PREF_BITS), 0x1000) == 0x1000 * f.pat
  {
    hide And;
    WordDivisions(f);
    FrameBits(f);
    AndNot(f.Word(), LARGE_FRAME_BITS);
    ClearPatAndSize(f.(frame := 0));
    SingleBits(f.(frame := 0));
  }

  /** The entry that replaces a large page points to the new table and keeps the page's access bits. */
  lemma SplitTableEntryMeaning(height: nat, w: u64, pa: nat)
    requires 1 <= height && LeafWord(height, w) && FrameAddress(pa)
    ensures TableWord(SplitTableEntry(w, pa), pa) && SplitTableEntry(w, pa) < TWO_64
    ensures LeafAttributes(1, SplitTableEntry(w, pa)).(pat := false) == LeafAttributes(1, w).(pat := false)
    ensures EntryRights(SplitTableEntry(w, pa)) == EntryRights(w)
  {
    hide And, Or, Present, PageSize, Frame, LeafBase, LeafAttributes, EntryRights, SplitTableEntry;
    RightsInAttributes(1, w);
    RightsInAttributes(1, SplitTableEntry(w, pa));
    var f := FieldsOf(w);
    LargeLeafFields(height, f);
    var n, zero := Divide(pa, 0x1000);
    SplitTableFields(f, n);
  }

  lemma LargeLeafFields(height: nat, f: Fields)
    requires 1 <= height && f.Valid() && LeafWord(height, f.Word())
    ensures f.low % 2 == 1 && f.size == 1 && f.frame % 0x100 == 0 && (height == 2 ==> f.frame % 0x2_0000 == 0)
  {
    hide Present, PageSize;
    LeafWordFields(f);
    var g, r := Divide(f.frame, 0x2_0000);
    if height == 2 {
      DivModUnique(f.frame, 0x100, 0x200 * g, 0);
    }
  }

  lemma SplitTableFields(f: Fields, n: nat)
    requires f.Valid() && f.low % 2 == 1 && f.frame % 0x100 == 0 && n < 0x100_0000_0000 && f.Word() < TWO_64
    ensures var e := SplitTableEntry(f.Word(), 0x1000 * n);
      && e < TWO_64 && TableWord(e, 0x1000 * n)
      && LeafAttributes(1, e).(pat := false) == LeafAttributes(1, f.Word()).(pat := false)
  {
    hide And, Or, Present, PageSize, Frame, LeafBase, LeafAttributes;
    LargeEntryParts(f);
    OrFrame(n, f.low + 0x100 * f.mid, f.high);
    var frame, pat := Divide(n, 2);
    FieldMeaning(f);
    FieldMeaning(Fields(f.low, 0, f.mid, pat, frame, f.high));
  }

  /** Entry j of the table that replaces a large page maps the j-th 512th of that page with the same attributes. */
  lemma SplitLeafEntryMeaning(height: nat, w: u64, j: nat)
    requires 1 <= height && LeafWord(height, w) && j < 512
    ensures var c := SplitLeafEntry(height, w, j);
      && c < TWO_64 && LeafWord(height - 1, c)
      && LeafBase(height - 1, c) == LeafBase(height, w) + ChildSize(height - 1) * j
      && LeafAttributes(height - 1, c) == LeafAttributes(height, w) && EntryRights(c) == EntryRights(w)
  {
    hide And, Or, Present, PageSize, Frame, LeafBase, LeafAttributes, EntryRights, SplitLeafEntry;
    RightsInAttributes(height, w);
    RightsInAttributes(height - 1, SplitLeafEntry(height, w, j));
    var f := FieldsOf(w);
    LargeLeafFields(height, f);
    if height == 2 {
      SplitGigabyteEntry(f, j);
    } else {
      SplitMegabyteEntry(f, j);
    }
  }

  lemma SplitGigabyteEntry(f: Fields, j: nat)
    requires f.Valid() && f.low % 2 == 1 && f.size == 1 && f.frame % 0x2_0000 == 0 && j < 512 && f.Word() < TWO_64
    ensures var c := SplitLeafEntry(2, f.Word(), j);
      && c < TWO_64 && LeafWord(1, c) && LeafBase(1, c) == LeafBase(2, f.Word()) + 0x20_0000 * j
      && LeafAttributes(1, c) == LeafAttributes(2, f.Word())
  {
    hide And, Or, Present, PageSize, Frame, LeafBase, LeafAttributes, LeafWord;
    var q, r := Divide(f.frame, 0x2_0000);
    assert q < 0x40_0000;
    GigabyteEntryValue(f, q, j);
    var g := f.(frame := f.frame + 0x100 * j);
    assert g.Valid();
    assert g.frame % 0x100 == 0 by { DivModUnique(g.frame, 0x100, 0x200 * q + j, 0); }
    FieldMeaning(f);
    FieldMeaning(g);
    LeafWordFields(g);
  }

  lemma GigabyteEntryValue(f: Fields, q: nat, j: nat)
    requires f.Valid() && f.frame == 0x2_0000 * q && q < 0x40_0000 && j < 512 && f.Word() < TWO_64
    ensures SplitLeafEntry(2, f.Word(), j) == f.(frame := f.frame + 0x100 * j).Word()
  {
    hide And, Or, Not, SplitLeafEntry, Fields.Word;
    assert f.frame % 0x100 == 0 by { DivModUnique(f.frame, 0x100, 0x200 * q, 0); }
    LargeEntryParts(f);
    GigabyteEntry(f.Word(), j);
    WordOr(f, f.frame + 0x100 * j);
  }

  lemma GigabyteEntry(w: nat, j: nat)
    ensures SplitLeafEntry(2, w, j) == Or(And(w, LARGE_FRAME_BITS) + 0x20_0000 * j, And(w, LARGE_PREF_BITS))
  {
    hide And, Or, Not;
    assert ChildSize(2) / 512 == 0x20_0000;
  }

  /** A word is its frame or-ed with the rest. */
  lemma WordOr(f: Fields, frame: nat)
    requires f.Valid() && frame < 0x80_0000_0000
    ensures Or(0x2000 * frame, f.(frame := 0).Word()) == f.(frame := frame).Word()
  {
    hide Or;
    OrLargeFrame(frame, f.low + 0x80 * f.size + 0x100 * f.mid + 0x1000 * f.pat, f.high);
  }

  lemma SplitMegabyteEntry(f: Fields, j: nat)
    requires f.Valid() && f.low % 2 == 1 && f.size == 1 && f.frame % 0x100 == 0 && j < 512 && f.Word() < TWO_64
    ensures var c := SplitLeafEntry(1, f.Word(), j);
      && c < TWO_64 && LeafWord(0, c) && LeafBase(0, c) == LeafBase(1, f.Word()) + 0x1000 * j
      && LeafAttributes(0, c) == LeafAttributes(1, f.Word())
  {
    hide And, Or, Present, PageSize, Frame, LeafBase, LeafAttributes, LeafWord;
    var q, r := Divide(f.frame, 0x100);
    var half, odd := Divide(j, 2);
    MegabyteEntryValue(f, q, half, odd);
    var g := f.(size := f.pat, pat := odd, frame := f.frame + half);
    FieldMeaning(f);
    FieldMeaning(g);
    LeafWordFields(g);
  }

  lemma MegabyteEntryValue(f: Fields, q: nat, half: nat, odd: nat)
    requires f.Valid() && f.frame == 0x100 * q && half < 0x100 && odd < 2 && f.Word() < TWO_64
    ensures f.(size := f.pat, pat := odd, frame := f.frame + half).Valid()
    ensures SplitLeafEntry(1, f.Word(), odd + 2 * half) == f.(size := f.pat, pat := odd, frame := f.frame + half).Word()
  {
    hide And, Or, Not, SplitLeafEntry, Fields.Word;
    DivModUnique(f.frame, 0x100, q, 0);
    LargeEntryParts(f);
    MegabyteEntry(f.Word(), odd + 2 * half);
    PatDown(f.pat);
    WordOrPat(f, half, odd);
  }

  lemma MegabyteEntry(w: nat, j: nat)
    ensures var prefs := And(w, LARGE_PREF_BITS);
      SplitLeafEntry(1, w, j)
        == Or(Or(And(w, LARGE_FRAME_BITS) + 0x1000 * j, And(prefs, Not(0x1080))), And(prefs, 0x1000) / 0x20)
  {
    hide And, Or, Not;
    assert ChildSize(1) / 512 == 0x1000;
  }

  lemma PatDown(pat: nat)
    requires pat < 2
    ensures 0x1000 * pat / 0x20 == 0x80 * pat
  {
  }

  /** The frame of a 4 KB page, the PAT bit moved down, and the rest make a word. */
  lemma WordOrPat(f: Fields, half: nat, odd: nat)
    requires f.Valid() && half < 0x100 && odd < 2 && f.frame + half < 0x80_0000_0000
    ensures Or(Or(0x2000 * f.frame + 0x1000 * (odd + 2 * half), f.(size := 0, pat := 0, frame := 0).Word()),
               0x80 * f.pat)
         == f.(size := f.pat, pat := odd, frame := f.frame + half).Word()
  {
    hide Or;
    var n := 2 * f.frame + odd + 2 * half;
    OrFrame(n, f.low + 0x100 * f.mid, f.high);
    OrPatBit(f.low, f.pat, f.mid + 0x10 * n + 0x1000_0000_0000 * f.high);
  }

  /** Splitting a 2 MB page gives 4 KB entries with bit 7 set exactly when the page had its PAT bit set. */
  lemma SplitPat(w: u64, j: nat)
    requires LeafWord(1, w) && j < 512
    ensures PageSize(SplitLeafEntry(1, w, j)) <==> w / 0x1000 % 2 == 1
  {
    hide And, Or, Present, Frame, LeafBase, SplitLeafEntry, PageSize;
    SplitLeafEntryMeaning(1, w, j);
  }
}
