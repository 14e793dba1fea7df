/**
 * The linker's memory bank: a sparse map from addresses to 16-bit signed
 * words that remembers the lowest and highest address ever written, with
 * relocation, import patching, merging and text-record output.
 */
module LinkerMemory {
  import opened Wrappers
  import opened Bits
  import opened JavaLang
  import opened HexText
  import opened Symbols
  import opened SymbolEntries
  import ByteOperations

  /** `Integer.MAX_VALUE`, the first address of a bank nothing was written to. */
  const IntMax: int := 0x7FFF_FFFF

  datatype Bank = Bank(data: map<int, int>, first: int, last: int)

  /** `new MemoryBank()`: no words, first address Integer.MAX_VALUE, last address 0. */
  const Empty: Bank := Bank(map[], IntMax, 0)

  /** `read`: the stored word, or 0 for an address never written. */
  function Read(b: Bank, address: int): int
  {
    if address in b.data then b.data[address] else 0
  }

  /** `adjustBounds`: widen [first, last] to take in the address. */
  function AdjustBounds(b: Bank, address: int): (r: Bank)
    ensures r.data == b.data
    ensures r.first <= address <= r.last
    ensures r.first <= b.first && r.last >= b.last
  {
    b.(first := if address < b.first then address else b.first,
       last := if address > b.last then address else b.last)
  }

  /**
   * `write`: afterwards the address reads as the value, every other address
   * reads as before, and the bounds take in the address.
   */
  function Write(b: Bank, address: int, value: int): (r: Bank)
    ensures Read(r, address) == value
    ensures forall a | a != address :: Read(r, a) == Read(b, a)
    ensures r.data.Keys == b.data.Keys + {address}
    ensures r.first <= address <= r.last && r.first <= b.first && r.last >= b.last
    ensures address >= b.first ==> r.first == b.first
    ensures address <= b.last ==> r.last == b.last
  {
    var adjusted := AdjustBounds(b, address);
    adjusted.(data := adjusted.data[address := value])
  }

  /** Every stored address lies within [first, last]. */
  ghost predicate InBounds(b: Bank)
  {
    forall a | a in b.data :: b.first <= a <= b.last
  }

  /** A fresh bank is within its bounds, and every write keeps it so. */
  lemma WriteInBounds(b: Bank, address: int, value: int)
    requires InBounds(b)
    ensures InBounds(Write(b, address, value))
    ensures InBounds(Empty)
  {
  }

  /** Later writes to the same address win. */
  lemma LastWriteWins(b: Bank, address: int, v1: int, v2: int)
    ensures Write(Write(b, address, v1), address, v2).data == Write(b, address, v2).data
  {
  }

  // ---------------------------------------------------------------------------
  // Bit fields
  // ---------------------------------------------------------------------------

  /** The highest bit of the field that a short can hold. */
  function Top(e: SymbolEntry): int
  {
    if e.msb > 15 then 15 else e.msb
  }

  /** The number of bits of the field within a short. */
  function Width(e: SymbolEntry): int
  {
    Top(e) - e.lsb + 1
  }

  /** A field the relocation and patching code handles: bits msb..lsb with 0 <= lsb <= msb <= 16, lsb < 16. */
  predicate Proper(e: SymbolEntry)
  {
    0 <= e.lsb <= e.msb <= 16 && e.lsb <= 15
  }

  /** The unsigned w-bit field of v starting at bit s. */
  ghost function Field(v: int, s: nat, w: nat): int
  {
    (v / Pow2(s)) % Pow2(w)
  }

  /**
   * The write-back shared by relocation and import patching: the bits outside
   * the mask are kept, and the mask's bits take f shifted up to lsb.
   */
  function Reinsert(value: int, e: SymbolEntry, f: int): (r: int)
    ensures IsShort(r)
  {
    var kept := Wrap16(And(value, GetInverseMask(e)));
    Wrap16(Or(kept, And(Shl(f, e.lsb), GetMask(e))))
  }

  /** The relocated field value: `(short)((value & mask) >> lsb)` plus delta, narrowed to a short. */
  function FieldMoved(value: int, e: SymbolEntry, delta: int): int
  {
    Wrap16(Wrap16(Shr(And(value, GetMask(e)), e.lsb)) + delta)
  }

  /** One relocation record applied to the word it names. */
  function RelocateWord(value: int, e: SymbolEntry, delta: int): (r: int)
    ensures IsShort(r)
  {
    Reinsert(value, e, FieldMoved(value, e, delta))
  }

  /** Fields whose bits agree are equal. */
  lemma FieldFromBits(x: int, s1: nat, y: int, s2: nat, w: nat)
    requires forall j: nat | j < w :: Bit(x / Pow2(s1), j) == Bit(y / Pow2(s2), j)
    ensures Field(x, s1, w) == Field(y, s2, w)
  {
    var fx := Field(x, s1, w);
    var fy := Field(y, s2, w);
    forall i: nat | i <= w ensures Bit(fx, i) == Bit(fy, i) {
      if i < w {
        BitModPow2(x / Pow2(s1), w, i);
        BitModPow2(y / Pow2(s2), w, i);
      } else {
        BitHighNonneg(fx, w, i);
        BitHighNonneg(fy, w, i);
      }
    }
    BitsEqual(fx, fy, w);
  }

  /** Within 16 bits, Reinsert keeps the bits outside the field and puts f's low bits inside it. */
  lemma ReinsertBits(value: int, e: SymbolEntry, f: int, k: nat)
    requires Proper(e) && k < 16
    ensures Bit(Reinsert(value, e, f), k) ==
      if e.lsb <= k <= e.msb then Bit(f, k - e.lsb) else Bit(value, k)
  {
    var kept := Wrap16(And(value, GetInverseMask(e)));
    var placed := And(Shl(f, e.lsb), GetMask(e));
    KeptBit(value, e, k);
    PlacedBit(f, e, k);
    BitWrap16(Or(kept, placed), k);
    BitOr(kept, placed, k);
  }

  /** The kept part of the word: its bits outside the field. */
  lemma KeptBit(value: int, e: SymbolEntry, k: nat)
    requires Proper(e) && k < 16
    ensures Bit(Wrap16(And(value, GetInverseMask(e))), k) == (Bit(value, k) && !(e.lsb <= k <= e.msb))
  {
    var inv := GetInverseMask(e);
    InverseMaskBits(e, k);
    BitWrap16(And(value, inv), k);
    BitAnd(value, inv, k);
  }

  /** The placed part: f shifted up to lsb, cut to the field. */
  lemma PlacedBit(f: int, e: SymbolEntry, k: nat)
    requires Proper(e) && k < 16
    ensures Bit(And(Shl(f, e.lsb), GetMask(e)), k) == (e.lsb <= k <= e.msb && Bit(f, k - e.lsb))
  {
    var m := GetMask(e);
    var shifted := Shl(f, e.lsb);
    MaskBits(e, k);
    BitAnd(shifted, m, k);
    ShlBit(f, e.lsb, k);
  }

  /** Below bit 32, bit k of `f << s` is bit k - s of f. */
  lemma ShlBit(f: int, s: int, k: nat)
    requires 0 <= s < 32 && k < 32
    ensures Bit(Shl(f, s), k) == (k >= s && Bit(f, k - s))
  {
    assert Shl(f, s) == Wrap32(f * Pow2(s));
    BitWrap32(f * Pow2(s), k);
    BitMulPow2(f, s, k);
  }

  /** After Reinsert, the field holds f modulo 2^width. */
  lemma ReinsertField(value: int, e: SymbolEntry, f: int)
    requires Proper(e)
    ensures Field(Reinsert(value, e, f), e.lsb, Width(e)) == Field(f, 0, Width(e))
  {
    ReinsertFieldBits(value, e, f);
    FieldOfEntryBits(Reinsert(value, e, f), e, f);
  }

  /** When the bits of r in e's field agree with f's low bits, so do the field values. */
  lemma FieldOfEntryBits(r: int, e: SymbolEntry, f: int)
    requires Proper(e)
    requires forall j: nat | j < Width(e) :: Bit(r, e.lsb + j) == Bit(f, j)
    ensures Field(r, e.lsb, Width(e)) == Field(f, 0, Width(e))
  {
    FieldOfAgreeingBits(r, e.lsb, f, Width(e));
  }

  /** Every bit of the field after Reinsert is the matching bit of f. */
  lemma ReinsertFieldBits(value: int, e: SymbolEntry, f: int)
    requires Proper(e)
    ensures forall j: nat | j < Width(e) :: Bit(Reinsert(value, e, f), e.lsb + j) == Bit(f, j)
  {
    forall j: nat | j < Width(e) ensures Bit(Reinsert(value, e, f), e.lsb + j) == Bit(f, j) {
      ReinsertInField(value, e, f, j);
    }
  }

  /** When bits lsb.. of r agree with f's low bits for w places, so do the fields. */
  lemma FieldOfAgreeingBits(r: int, lsb: nat, f: int, w: nat)
    requires forall j: nat | j < w :: Bit(r, lsb + j) == Bit(f, j)
    ensures Field(r, lsb, w) == Field(f, 0, w)
  {
    forall j: nat | j < w ensures Bit(r / Pow2(lsb), j) == Bit(f / Pow2(0), j) {
      ShiftedBitsAgree(r, lsb, f, j);
    }
    FieldFromBits(r, lsb, f, 0, w);
  }

  /** Bit j of the field after Reinsert is bit j of f. */
  lemma ReinsertInField(value: int, e: SymbolEntry, f: int, j: nat)
    requires Proper(e) && j < Width(e)
    ensures Bit(Reinsert(value, e, f), e.lsb + j) == Bit(f, j)
  {
    var k := e.lsb + j;
    var kept := Wrap16(And(value, GetInverseMask(e)));
    var placed := And(Shl(f, e.lsb), GetMask(e));
    KeptBit(value, e, k);
    PlacedBit(f, e, k);
    BitWrap16(Or(kept, placed), k);
    BitOr(kept, placed, k);
  }

  /** Bit lsb + j of r matching bit j of f is bit j of r shifted down matching bit j of f. */
  lemma ShiftedBitsAgree(r: int, lsb: nat, f: int, j: nat)
    requires Bit(r, lsb + j) == Bit(f, j)
    ensures Bit(r / Pow2(lsb), j) == Bit(f / Pow2(0), j)
  {
    BitDivPow2(r, lsb, j);
    BitDivPow2(f, 0, j);
  }

  /** Adding a multiple of 2^16 leaves every field of width up to 16 alone. */
  lemma Wrap16Field(x: int, w: nat)
    requires w <= 16
    ensures Field(Wrap16(x), 0, w) == Field(x, 0, w)
  {
    forall j: nat | j < w ensures Bit(Wrap16(x) / Pow2(0), j) == Bit(x / Pow2(0), j) {
      BitWrap16(x, j);
      assert Pow2(0) == 1;
    }
    FieldFromBits(Wrap16(x), 0, x, 0, w);
  }

  /** The low w bits of a sum depend only on the low w bits of its terms. */
  lemma FieldSum(x: int, d: int, w: nat)
    ensures Field(x + d, 0, w) == (Field(x, 0, w) + d) % Pow2(w)
  {
    var p := Pow2(w);
    assert Pow2(0) == 1;
    assert x == (x / p) * p + x % p;
    ModAddMultiple(x % p + d, x / p, p);
  }

  /** Below the field's width, the masked and shifted word has the field's bits. */
  lemma ShiftedFieldBit(value: int, e: SymbolEntry, j: nat)
    requires Proper(e) && j < Width(e)
    ensures Bit(Wrap16(Shr(And(value, GetMask(e)), e.lsb)), j) == Bit(value / Pow2(e.lsb), j)
  {
    MaskBits(e, j + e.lsb);
    ShiftedMaskBit(value, GetMask(e), e.lsb, j);
  }

  /** Where the mask has a one, masking then shifting right by lsb keeps the shifted value's bit. */
  lemma ShiftedMaskBit(value: int, mask: int, lsb: nat, j: nat)
    requires lsb < 32 && j < 16 && Bit(mask, j + lsb)
    ensures Bit(Wrap16(Shr(And(value, mask), lsb)), j) == Bit(value / Pow2(lsb), j)
  {
    var masked := And(value, mask);
    BitWrap16(Shr(masked, lsb), j);
    assert Shr(masked, lsb) == masked / Pow2(lsb);
    BitDivPow2(masked, lsb, j);
    BitDivPow2(value, lsb, j);
    BitAnd(value, mask, j + lsb);
  }

  /** The relocated field value is the old field plus delta, modulo 2^width. */
  lemma MovedField(value: int, e: SymbolEntry, delta: int)
    requires Proper(e)
    ensures Field(FieldMoved(value, e, delta), 0, Width(e)) == (Field(value, e.lsb, Width(e)) + delta) % Pow2(Width(e))
  {
    var x := Wrap16(Shr(And(value, GetMask(e)), e.lsb));
    ShiftedField(value, e);
    SumField(x, delta, Width(e));
  }

  /** Masking the field and shifting it down to bit 0 gives the field's value. */
  lemma ShiftedField(value: int, e: SymbolEntry)
    requires Proper(e)
    ensures Field(Wrap16(Shr(And(value, GetMask(e)), e.lsb)), 0, Width(e)) == Field(value, e.lsb, Width(e))
  {
    var x := Wrap16(Shr(And(value, GetMask(e)), e.lsb));
    forall j: nat | j < Width(e) ensures Bit(x / Pow2(0), j) == Bit(value / Pow2(e.lsb), j) {
      ShiftedFieldBit(value, e, j);
    }
    FieldFromBits(x, 0, value, e.lsb, Width(e));
  }

  /** The low w bits of a 16-bit sum are the low w bits of x plus delta, modulo 2^w. */
  lemma SumField(x: int, delta: int, w: nat)
    requires w <= 16
    ensures Field(Wrap16(x + delta), 0, w) == (Field(x, 0, w) + delta) % Pow2(w)
  {
    Wrap16Field(x + delta, w);
    FieldSum(x, delta, w);
  }

  /**
   * A relocation record adds delta to its field, modulo the field's width,
   * and keeps every other bit of the word.
   */
  lemma RelocateWordSpec(value: int, e: SymbolEntry, delta: int)
    requires Proper(e)
    ensures Field(RelocateWord(value, e, delta), e.lsb, Width(e)) == (Field(value, e.lsb, Width(e)) + delta) % Pow2(Width(e))
    ensures forall k: nat | k < 16 && !(e.lsb <= k <= e.msb) :: Bit(RelocateWord(value, e, delta), k) == Bit(value, k)
  {
    ReinsertField(value, e, FieldMoved(value, e, delta));
    MovedField(value, e, delta);
    forall k: nat | k < 16 && !(e.lsb <= k <= e.msb) ensures Bit(RelocateWord(value, e, delta), k) == Bit(value, k) {
      ReinsertBits(value, e, FieldMoved(value, e, delta), k);
    }
  }

  // ---------------------------------------------------------------------------
  // Relocation
  // ---------------------------------------------------------------------------

  /** The record loop of `relocate`, from record i on: each named word is read, relocated and written back. */
  function RelocateRecords(b: Bank, delta: int, records: seq<SymbolEntry>, i: nat): (r: Bank)
    requires i <= |records|
    decreases |records| - i
  {
    if i == |records| then b
    else
      var e := records[i];
      RelocateRecords(Write(b, e.address, RelocateWord(Read(b, e.address), e, delta)), delta, records, i + 1)
  }

  /** Every word moved delta addresses up. */
  function Shift(data: map<int, int>, delta: int): map<int, int>
  {
    var keys := set k | k in data :: k + delta;
    map k | k in keys :: data[k - delta]
  }

  /**
   * `relocate(a, b, records)`: the records are applied at the old addresses,
   * then every word and both bounds move by b - a.
   */
  function Relocate(bank: Bank, a: int, b: int, records: seq<SymbolEntry>): (r: Bank)
  {
    var delta := Wrap32(b - a);
    Move(RelocateRecords(bank, delta, records, 0), delta)
  }

  /** Every word and both bounds moved delta addresses up, the bounds wrapping as Java ints. */
  function Move(patched: Bank, delta: int): Bank
  {
    Bank(Shift(patched.data, delta), Wrap32(patched.first + delta), Wrap32(patched.last + delta))
  }

  /** No record from index i on names the address. */
  predicate Untouched(records: seq<SymbolEntry>, i: nat, address: int)
  {
    forall j | i <= j < |records| :: records[j].address != address
  }

  /** Words no record names keep their value through the record loop. */
  lemma {:induction false} RelocateRecordsKeeps(b: Bank, delta: int, records: seq<SymbolEntry>, i: nat, address: int)
    requires i <= |records| && Untouched(records, i, address)
    ensures Read(RelocateRecords(b, delta, records, i), address) == Read(b, address)
    decreases |records| - i
  {
    if i < |records| {
      var e := records[i];
      RelocateRecordsKeeps(Write(b, e.address, RelocateWord(Read(b, e.address), e, delta)), delta, records, i + 1, address);
    }
  }

  /** A word named by exactly one record is relocated once. */
  lemma {:induction false} RelocateRecordsOnce(b: Bank, delta: int, records: seq<SymbolEntry>, i: nat, j: nat)
    requires i <= j < |records|
    requires forall l | i <= l < |records| && l != j :: records[l].address != records[j].address
    ensures Read(RelocateRecords(b, delta, records, i), records[j].address) ==
      RelocateWord(Read(b, records[j].address), records[j], delta)
    decreases |records| - i
  {
    var e := records[i];
    var v := RelocateWord(Read(b, e.address), e, delta);
    var b' := Write(b, e.address, v);
    assert RelocateRecords(b, delta, records, i) == RelocateRecords(b', delta, records, i + 1);
    if i == j {
      assert Read(b', e.address) == v;
      RelocateRecordsKeeps(b', delta, records, i + 1, records[j].address);
    } else {
      assert Read(b', records[j].address) == Read(b, records[j].address);
      RelocateRecordsOnce(b', delta, records, i + 1, j);
    }
  }

  /**
   * After `relocate`, the word at k + delta is the record-patched word that
   * was at k, and nothing else is stored.
   */
  lemma RelocateMoves(bank: Bank, a: int, b: int, records: seq<SymbolEntry>, delta: int, patched: Bank, k: int)
    requires delta == Wrap32(b - a) && patched == RelocateRecords(bank, delta, records, 0)
    ensures Read(Relocate(bank, a, b, records), k + delta) == Read(patched, k)
    ensures k + delta in Relocate(bank, a, b, records).data <==> k in patched.data
  {
    assert Relocate(bank, a, b, records) == Move(patched, delta);
    ShiftAt(patched.data, delta, k);
  }

  /** The shifted map holds k + delta exactly when the original holds k, with the same word. */
  lemma ShiftAt(data: map<int, int>, delta: int, k: int)
    ensures k + delta in Shift(data, delta) <==> k in data
    ensures k in data ==> Shift(data, delta)[k + delta] == data[k]
  {
    assert k + delta - delta == k;
  }

  // ---------------------------------------------------------------------------
  // Import patching
  // ---------------------------------------------------------------------------

  /** The text Java prints for a possibly null symbol name. */
  function NameText(name: Option<string>): string
  {
    if name.Some? then name.value else "null"
  }

  /**
   * The table loop of `resolveSymbols` from table i on: every table that has
   * the name overwrites the value found so far, narrowed to a short.
   */
  function FindFrom(tables: seq<SymbolTable>, name: Option<string>, i: nat, found: Option<int>): (r: Option<int>)
    requires i <= |tables|
    decreases |tables| - i
  {
    if i == |tables| then found
    else if name.Some? && HasSymbol(tables[i], name.value) then
      FindFrom(tables, name, i + 1, Some(Wrap16(tables[i].entries[name.value].value)))
    else FindFrom(tables, name, i + 1, found)
  }

  /** Table i is the last of the tables to define the name. */
  ghost predicate LastDefiner(tables: seq<SymbolTable>, name: string, i: int)
  {
    0 <= i < |tables| && HasSymbol(tables[i], name) &&
    forall j | i < j < |tables| :: !HasSymbol(tables[j], name)
  }

  /**
   * The table loop finds the value of the last table that defines the name,
   * and nothing when none does (a null name is in no table).
   */
  lemma {:induction false} FindFromSpec(tables: seq<SymbolTable>, name: Option<string>, i: nat, found: Option<int>)
    requires i <= |tables|
    ensures var r := FindFrom(tables, name, i, found);
      && (name.None? || (forall j | i <= j < |tables| :: !HasSymbol(tables[j], name.value)) ==> r == found)
      && (forall j | i <= j < |tables| && name.Some? && LastDefiner(tables, name.value, j) ::
            r == Some(Wrap16(tables[j].entries[name.value].value)))
    decreases |tables| - i
  {
    if i < |tables| {
      if name.Some? && HasSymbol(tables[i], name.value) {
        FindFromSpec(tables, name, i + 1, Some(Wrap16(tables[i].entries[name.value].value)));
      } else {
        FindFromSpec(tables, name, i + 1, found);
      }
    }
  }

  /** The import loop of `resolveSymbols` from entry i on. */
  function ResolveFrom(b: Bank, tables: seq<SymbolTable>, entries: seq<SymbolEntry>, i: nat): (r: Result<Bank, Thrown>)
    requires i <= |entries|
    decreases |entries| - i
  {
    if i == |entries| then Ok(b)
    else
      var e := entries[i];
      match FindFrom(tables, e.symbol, 0, None)
      case None => Err(UndefinedSymbol(NameText(e.symbol)))
      case Some(v) => ResolveFrom(Write(b, e.address, Reinsert(Read(b, e.address), e, v)), tables, entries, i + 1)
  }

  /** `resolveSymbols(tables, entries)`. */
  function ResolveSymbols(b: Bank, tables: seq<SymbolTable>, entries: seq<SymbolEntry>): (r: Result<Bank, Thrown>)
  {
    ResolveFrom(b, tables, entries, 0)
  }

  /** Some table defines the entry's symbol. */
  ghost predicate Defined(tables: seq<SymbolTable>, e: SymbolEntry)
  {
    e.symbol.Some? && exists j | 0 <= j < |tables| :: HasSymbol(tables[j], e.symbol.value)
  }

  /** There is a last table among those that define a name some table defines. */
  lemma {:induction false} LastDefinerExists(tables: seq<SymbolTable>, name: string, j: int)
    requires 0 <= j < |tables| && HasSymbol(tables[j], name)
    ensures exists i :: LastDefiner(tables, name, i)
    decreases |tables| - j
  {
    if exists l | j < l < |tables| :: HasSymbol(tables[l], name) {
      var l :| j < l < |tables| && HasSymbol(tables[l], name);
      LastDefinerExists(tables, name, l);
    } else {
      assert LastDefiner(tables, name, j);
    }
  }

  /** The table loop finds something exactly when the entry is defined. */
  lemma FindDefined(tables: seq<SymbolTable>, e: SymbolEntry)
    ensures FindFrom(tables, e.symbol, 0, None).Some? <==> Defined(tables, e)
  {
    FindFromSpec(tables, e.symbol, 0, None);
    if Defined(tables, e) {
      var j :| 0 <= j < |tables| && HasSymbol(tables[j], e.symbol.value);
      LastDefinerExists(tables, e.symbol.value, j);
    }
  }

  /** Import patching succeeds exactly when every entry from i on names a defined symbol. */
  lemma {:induction false} ResolveFromOk(b: Bank, tables: seq<SymbolTable>, entries: seq<SymbolEntry>, i: nat)
    requires i <= |entries|
    ensures ResolveFrom(b, tables, entries, i).Ok? <==> forall j | i <= j < |entries| :: Defined(tables, entries[j])
    ensures ResolveFrom(b, tables, entries, i).Err? ==>
      exists j | i <= j < |entries| :: !Defined(tables, entries[j]) &&
        ResolveFrom(b, tables, entries, i).error == UndefinedSymbol(NameText(entries[j].symbol))
    decreases |entries| - i
  {
    if i < |entries| {
      var e := entries[i];
      FindDefined(tables, e);
      match FindFrom(tables, e.symbol, 0, None)
      case None =>
      case Some(v) =>
        ResolveFromOk(Write(b, e.address, Reinsert(Read(b, e.address), e, v)), tables, entries, i + 1);
    }
  }

  /** Words no entry names keep their value through import patching. */
  lemma {:induction false} ResolveFromKeeps(b: Bank, tables: seq<SymbolTable>, entries: seq<SymbolEntry>, i: nat, address: int)
    requires i <= |entries| && Untouched(entries, i, address)
    requires ResolveFrom(b, tables, entries, i).Ok?
    ensures Read(ResolveFrom(b, tables, entries, i).value, address) == Read(b, address)
    decreases |entries| - i
  {
    if i < |entries| {
      var e := entries[i];
      var v := FindFrom(tables, e.symbol, 0, None).value;
      ResolveFromKeeps(Write(b, e.address, Reinsert(Read(b, e.address), e, v)), tables, entries, i + 1, address);
    }
  }

  /**
   * A word named by exactly one import entry gets, in that entry's field,
   * the value of the last table that defines the symbol, and keeps its
   * other bits.
   */
  lemma {:induction false} ResolveFromPatches(b: Bank, tables: seq<SymbolTable>, entries: seq<SymbolEntry>, i: nat, j: nat, t: nat)
    requires i <= j < |entries| && Proper(entries[j])
    requires forall l | i <= l < |entries| && l != j :: entries[l].address != entries[j].address
    requires ResolveFrom(b, tables, entries, i).Ok?
    requires entries[j].symbol.Some? && LastDefiner(tables, entries[j].symbol.value, t)
    ensures var e := entries[j];
      var w := Read(ResolveFrom(b, tables, entries, i).value, e.address);
      && Field(w, e.lsb, Width(e)) == Field(tables[t].entries[e.symbol.value].value, 0, Width(e))
      && forall k: nat | k < 16 && !(e.lsb <= k <= e.msb) :: Bit(w, k) == Bit(Read(b, e.address), k)
    decreases |entries| - i
  {
    var e := entries[i];
    var v := FindFrom(tables, e.symbol, 0, None).value;
    var b' := Write(b, e.address, Reinsert(Read(b, e.address), e, v));
    if i == j {
      ResolveFromKeeps(b', tables, entries, i + 1, e.address);
      FindFromSpec(tables, e.symbol, 0, None);
      ReinsertField(Read(b, e.address), e, v);
      Wrap16Field(tables[t].entries[e.symbol.value].value, Width(e));
      forall k: nat | k < 16 && !(e.lsb <= k <= e.msb)
        ensures Bit(Reinsert(Read(b, e.address), e, v), k) == Bit(Read(b, e.address), k)
      {
        ReinsertBits(Read(b, e.address), e, v, k);
      }
    } else {
      ResolveFromPatches(b', tables, entries, i + 1, j, t);
    }
  }

  // ---------------------------------------------------------------------------
  // Merging and text records
  // ---------------------------------------------------------------------------

  /** The least element of a non-empty set. */
  function MinOf(s: set<int>): (m: int)
    requires s != {}
    ensures m in s && forall x | x in s :: m <= x
  {
    MinExists(s);
    var m :| m in s && forall x | x in s :: m <= x;
    m
  }

  /** Some element of a non-empty set. */
  lemma Member(s: set<int>) returns (y: int)
    requires s != {}
    ensures y in s
  {
    if forall z :: z !in s {
      assert false;
    }
    y :| y in s;
  }

  lemma {:induction false} MinExists(s: set<int>)
    requires s != {}
    ensures exists m :: m in s && forall x | x in s :: m <= x
    decreases |s|
  {
    var y := Member(s);
    var rest := s - {y};
    if rest != {} {
      MinExists(rest);
      var m :| m in rest && forall x | x in rest :: m <= x;
      var least := if y < m then y else m;
      forall x | x in s ensures least <= x {
        if x != y {
          assert x in rest;
        }
      }
    } else {
      forall x | x in s ensures y <= x {
        assert x !in rest;
      }
    }
  }

  /** The greatest element of a non-empty set. */
  function MaxOf(s: set<int>): (m: int)
    requires s != {}
    ensures m in s && forall x | x in s :: x <= m
  {
    MaxExists(s);
    var m :| m in s && forall x | x in s :: x <= m;
    m
  }

  lemma {:induction false} MaxExists(s: set<int>)
    requires s != {}
    ensures exists m :: m in s && forall x | x in s :: x <= m
    decreases |s|
  {
    var y := Member(s);
    var rest := s - {y};
    if rest != {} {
      MaxExists(rest);
      var m :| m in rest && forall x | x in rest :: x <= m;
      var greatest := if y > m then y else m;
      forall x | x in s ensures x <= greatest {
        if x != y {
          assert x in rest;
        }
      }
    } else {
      forall x | x in s ensures x <= y {
        assert x !in rest;
      }
    }
  }

  /** The elements of a finite set in ascending order. */
  function Sorted(s: set<int>): (r: seq<int>)
    ensures |r| == |s| && forall i | 0 <= i < |r| :: r[i] in s
    decreases |s|
  {
    if s == {} then []
    else
      var m := MinOf(s);
      [m] + Sorted(s - {m})
  }

  /** Sorted(s) lists every element of s exactly once, in strictly ascending order. */
  lemma {:induction false} SortedSpec(s: set<int>)
    ensures SortedOf(Sorted(s), s)
    decreases |s|
  {
    if s != {} {
      var m := MinOf(s);
      SortedSpec(s - {m});
      SortedCons(m, Sorted(s - {m}), s);
    }
  }

  /** r lists exactly the elements of s, each once, in strictly ascending order. */
  ghost predicate SortedOf(r: seq<int>, s: set<int>)
  {
    && |r| == |s|
    && (forall i | 0 <= i < |r| :: r[i] in s)
    && (forall x | x in s :: x in r)
    && (forall i, j | 0 <= i < j < |r| :: r[i] < r[j])
  }

  lemma SortedCons(m: int, rest: seq<int>, s: set<int>)
    requires m in s && (forall x | x in s :: m <= x) && SortedOf(rest, s - {m})
    ensures SortedOf([m] + rest, s)
  {
    var r := [m] + rest;
    forall i, j | 0 <= i < j < |r| ensures r[i] < r[j] {
      assert r[j] == rest[j - 1];
      if i > 0 {
        assert r[i] == rest[i - 1];
      } else {
        assert r[j] in s - {m};
      }
    }
    forall x | x in s ensures x in r {
      if x != m {
        assert x in s - {m};
      }
    }
    assert |s - {m}| == |s| - 1;
  }

  /** The write loop of `insertInto` over the given addresses of src. */
  function InsertKeys(src: Bank, dst: Bank, keys: seq<int>): (r: Bank)
    requires forall k | k in keys :: k in src.data
    decreases |keys|
  {
    if |keys| == 0 then dst
    else InsertKeys(src, Write(dst, keys[0], src.data[keys[0]]), keys[1..])
  }

  /** The addresses a list of keys names. */
  function KeySet(keys: seq<int>): (r: set<int>)
    decreases |keys|
  {
    if |keys| == 0 then {} else {keys[0]} + KeySet(keys[1..])
  }

  /**
   * `insertInto(dst)`: every word of this bank is written into dst, so it
   * overwrites dst where they overlap, and dst's bounds widen to take in every
   * address written. The Java loop visits the words in hash-map order; this is
   * its result, which InsertKeysAgree shows does not depend on that order.
   */
  function InsertInto(src: Bank, dst: Bank): (r: Bank)
  {
    if src.data.Keys == {} then dst
    else
      var lo := MinOf(src.data.Keys);
      var hi := MaxOf(src.data.Keys);
      Bank(dst.data + src.data, if lo < dst.first then lo else dst.first, if hi > dst.last then hi else dst.last)
  }

  /**
   * r is dst with the words of src at the given addresses written over it:
   * it has dst's addresses and the given ones, reads as src on the given ones
   * and as dst elsewhere, and its bounds are dst's widened to the given ones.
   */
  ghost predicate MergedOf(r: Bank, src: Bank, dst: Bank, keys: set<int>)
  {
    && (forall a :: a in r.data <==> a in dst.data || a in keys)
    && (forall a | a in keys :: a in src.data && r.data[a] == src.data[a])
    && (forall a | a in r.data && a !in keys :: r.data[a] == dst.data[a])
    && r.first <= dst.first && (forall a | a in keys :: r.first <= a) && (r.first == dst.first || r.first in keys)
    && r.last >= dst.last && (forall a | a in keys :: r.last >= a) && (r.last == dst.last || r.last in keys)
  }

  /** The write loop over any listing of addresses merges exactly those words. */
  lemma {:induction false} InsertKeysMerges(src: Bank, dst: Bank, keys: seq<int>)
    requires forall k | k in keys :: k in src.data
    ensures MergedOf(InsertKeys(src, dst, keys), src, dst, KeySet(keys))
    decreases |keys|
  {
    if |keys| > 0 {
      var d := Write(dst, keys[0], src.data[keys[0]]);
      assert forall k | k in keys[1..] :: k in keys;
      InsertKeysMerges(src, d, keys[1..]);
      var r := InsertKeys(src, dst, keys);
      assert r == InsertKeys(src, d, keys[1..]);
      var rest := KeySet(keys[1..]);
      assert KeySet(keys) == {keys[0]} + rest;
      forall a | a in r.data && a !in KeySet(keys) ensures r.data[a] == dst.data[a] {
        assert a != keys[0];
      }
    }
  }

  /** The closed form merges all of src's words. */
  lemma InsertIntoMerges(src: Bank, dst: Bank)
    ensures MergedOf(InsertInto(src, dst), src, dst, src.data.Keys)
  {
  }

  /** Two banks that merge the same words over the same bank are equal. */
  lemma MergedUnique(r1: Bank, r2: Bank, src: Bank, dst: Bank, keys: set<int>)
    requires MergedOf(r1, src, dst, keys) && MergedOf(r2, src, dst, keys)
    ensures r1 == r2
  {
    forall a ensures a in r1.data <==> a in r2.data {
    }
    forall a | a in r1.data ensures r1.data[a] == r2.data[a] {
      if a !in keys {
        assert r1.data[a] == dst.data[a];
      }
    }
    assert r1.data == r2.data;
  }

  /**
   * Writing src's words into dst in any order that visits each of them (with
   * repeats or not) gives the same bank as `insertInto`.
   */
  lemma InsertKeysAgree(src: Bank, dst: Bank, keys: seq<int>)
    requires forall k | k in keys :: k in src.data
    requires KeySet(keys) == src.data.Keys
    ensures InsertKeys(src, dst, keys) == InsertInto(src, dst)
  {
    InsertKeysMerges(src, dst, keys);
    InsertIntoMerges(src, dst);
    MergedUnique(InsertKeys(src, dst, keys), InsertInto(src, dst), src, dst, src.data.Keys);
  }

  /**
   * After `insertInto`, dst reads as src wherever src has a word and as
   * before everywhere else; src itself is a value and so is unchanged.
   */
  lemma InsertIntoSpec(src: Bank, dst: Bank, a: int)
    ensures Read(InsertInto(src, dst), a) == if a in src.data then Read(src, a) else Read(dst, a)
    ensures InsertInto(src, dst).data.Keys == dst.data.Keys + src.data.Keys
  {
    InsertIntoMerges(src, dst);
  }

  /** Where src has a word, the merged bank reads as src. */
  lemma InsertIntoHas(src: Bank, dst: Bank, a: int)
    requires a in src.data
    ensures Read(InsertInto(src, dst), a) == Read(src, a)
  {
    InsertIntoSpec(src, dst, a);
  }

  /** Where src has no word, the merged bank reads as dst. */
  lemma InsertIntoLacks(src: Bank, dst: Bank, a: int)
    requires a !in src.data
    ensures Read(InsertInto(src, dst), a) == Read(dst, a)
  {
    InsertIntoSpec(src, dst, a);
  }

  /** One text record: "T", the address and the word, each as four hex digits. */
  function TextRecord(address: int, value: int): string
  {
    "T" + ByteOperations.GetHex(address, 4) + ByteOperations.GetHex(value, 4)
  }

  /** The records of `getRecords`, one per stored word in ascending address order. */
  function Records(b: Bank): (r: seq<string>)
    ensures |r| == |b.data|
  {
    var keys := Sorted(b.data.Keys);
    seq(|keys|, i requires 0 <= i < |keys| => TextRecord(keys[i], b.data[keys[i]]))
  }

  /** `getRecords`: each record followed by "\r\n". */
  function GetRecords(b: Bank): string
  {
    JoinLines(Records(b))
  }

  function JoinLines(lines: seq<string>): string
    decreases |lines|
  {
    if |lines| == 0 then "" else lines[0] + "\r\n" + JoinLines(lines[1..])
  }

  /** Stored addresses and words fit what a text record can hold. */
  ghost predicate Recordable(b: Bank)
  {
    forall a | a in b.data :: 0 <= a < 0x1_0000 && IsShort(b.data[a])
  }

  /** A text record reads back as its address and, read as a short, its word. */
  lemma TextRecordReadBack(address: int, value: int)
    requires 0 <= address < 0x1_0000 && IsShort(value)
    ensures var rec := TextRecord(address, value);
      && |rec| == 9 && rec[0] == 'T'
      && ByteOperations.ParseHex(rec[1..5]) == Ok(address)
      && ByteOperations.ParseHex(rec[5..9]).Ok?
      && Wrap16(ByteOperations.ParseHex(rec[5..9]).value) == value
  {
    HexWord(address);
    HexWord(value);
    RecordFields("T", ByteOperations.GetHex(address, 4), ByteOperations.GetHex(value, 4));
    LowWord(address);
    LowWordShort(value);
  }

  /** Four hex digits of a word parse back as its low 16 bits. */
  lemma HexWord(v: int)
    requires IsInt(v)
    ensures |ByteOperations.GetHex(v, 4)| == 4
    ensures ByteOperations.ParseHex(ByteOperations.GetHex(v, 4)) == Ok(And(v, 0xFFFF))
  {
    ByteOperations.GetHexSpec(v, 4);
    ByteOperations.HexRoundTrip(v);
  }

  lemma RecordFields(t: string, a: string, v: string)
    requires |t| == 1 && |a| == 4 && |v| == 4
    ensures var rec := t + a + v;
      |rec| == 9 && rec[0] == t[0] && rec[1..5] == a && rec[5..9] == v
  {
  }

  /**
   * Record i reads back as the i-th stored address, in strictly ascending
   * order, and the word stored there (read as a short).
   */
  lemma RecordsReadBack(b: Bank, i: int)
    requires Recordable(b) && 0 <= i < |b.data|
    ensures var keys := Sorted(b.data.Keys);
      var rec := Records(b)[i];
      && keys[i] in b.data
      && (forall j | 0 <= j < i :: keys[j] < keys[i])
      && |rec| == 9 && rec[0] == 'T'
      && ByteOperations.ParseHex(rec[1..5]) == Ok(keys[i])
      && ByteOperations.ParseHex(rec[5..9]).Ok?
      && Wrap16(ByteOperations.ParseHex(rec[5..9]).value) == b.data[keys[i]]
  {
    var keys := Sorted(b.data.Keys);
    SortedSpec(b.data.Keys);
    assert |keys| == |b.data| by {
      assert |b.data.Keys| == |b.data|;
    }
    var k := keys[i];
    assert Records(b)[i] == TextRecord(k, b.data[k]);
    TextRecordReadBack(k, b.data[k]);
  }

  /** The low word mask, 2^16 - 1. */
  lemma LowMask()
    ensures 0xFFFF == Pow2(16) - 1
  {
    Pow2Values();
  }

  /** An address below 2^16 is its own low word. */
  lemma LowWord(k: int)
    requires 0 <= k < 0x1_0000
    ensures And(k, 0xFFFF) == k
  {
    LowMask();
    AndLowMask(k, 16);
  }

  /** A short's low word narrows back to the short. */
  lemma LowWordShort(v: int)
    requires IsShort(v)
    ensures Wrap16(And(v, 0xFFFF)) == v
  {
    LowMask();
    AndLowMask(v, 16);
    var u := v % 0x1_0000;
    if v < 0 {
      assert u == v + 0x1_0000;
      assert (u + 0x8000) % 0x1_0000 == v + 0x8000;
    }
  }
}
