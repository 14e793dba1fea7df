/**
 * The assembler's literal pool: each distinct literal value gets the next
 * slot, in order of first definition, and its address is that slot plus the
 * offset where the pool is placed after the program.
 */
module LiteralTables {
  import opened Wrappers
  import opened Bits
  import opened JavaLang

  /**
   * `slots` maps a literal value to its slot (its address relative to the
   * pool); `index` is the slot the next new value gets; `offset` is the
   * pool's address relative to the program origin.
   */
  datatype LiteralTable = LiteralTable(slots: map<int, int>, index: int, offset: int)

  /** A fresh table: no literals, counter 0, offset 0 (Java's default). */
  const Empty: LiteralTable := LiteralTable(map[], 0, 0)

  /** The slots are exactly 0 .. index-1, one per defined value. */
  ghost predicate Valid(t: LiteralTable)
  {
    && (forall v | v in t.slots :: 0 <= t.slots[v] < t.index)
    && (forall v, w | v in t.slots && w in t.slots && v != w :: t.slots[v] != t.slots[w])
    && |t.slots| == t.index
  }

  /** `define(value)`: a value seen for the first time takes the next slot; a known one changes nothing. */
  function Define(t: LiteralTable, value: int): (r: LiteralTable)
    ensures value in r.slots
    ensures r.slots.Keys == t.slots.Keys + {value}
    ensures forall v | v in t.slots :: r.slots[v] == t.slots[v]
    ensures value in t.slots ==> r.index == t.index
    ensures value !in t.slots ==> r.slots[value] == t.index && r.index == t.index + 1
    ensures r.offset == t.offset
    ensures Valid(t) ==> Valid(r)
  {
    if value in t.slots then t
    else LiteralTable(t.slots[value := t.index], t.index + 1, t.offset)
  }

  /** `setOffset`: places the pool; the slots and the counter are untouched. */
  function SetOffset(t: LiteralTable, offset: int): (r: LiteralTable)
    ensures r.offset == offset
    ensures r.slots == t.slots && r.index == t.index
  {
    t.(offset := offset)
  }

  /**
   * `getAddress(value)`: the value's slot plus the offset (int arithmetic); a
   * value never defined unboxes a null and throws.
   */
  function GetAddress(t: LiteralTable, value: int): (r: Result<int, Thrown>)
    ensures r.Ok? <==> value in t.slots
    ensures r.Err? ==> r.error == NullPointer
    ensures r.Ok? ==> Cong32(r.value, t.slots[value] + t.offset) && IsInt(r.value)
    ensures r.Ok? && IsInt(t.slots[value] + t.offset) ==> r.value == t.slots[value] + t.offset
  {
    if value in t.slots then
      var a := Wrap32(t.slots[value] + t.offset);
      assert Cong32(t.slots[value] + t.offset, a);
      assert (a - (t.slots[value] + t.offset)) % 0x1_0000_0000 == 0;
      Ok(a)
    else Err(NullPointer)
  }

  /** `getEntries`: every value with its slot. */
  function Entries(t: LiteralTable): (r: map<int, int>)
    ensures r.Keys == t.slots.Keys
    ensures forall v | v in r :: GetAddress(t, v) == Ok(Wrap32(r[v] + t.offset))
  {
    t.slots
  }

  // ---------------------------------------------------------------------------
  // Definition order
  // ---------------------------------------------------------------------------

  /** Defining each value of vs in turn, starting from t. */
  function DefineAll(t: LiteralTable, vs: seq<int>): LiteralTable
  {
    if |vs| == 0 then t else Define(DefineAll(t, vs[..|vs| - 1]), vs[|vs| - 1])
  }

  /** The distinct values of vs, each at the position of its first occurrence. */
  function Distinct(vs: seq<int>): (d: seq<int>)
    ensures forall v :: v in d <==> v in vs
    ensures forall i, j | 0 <= i < j < |d| :: d[i] != d[j]
  {
    if |vs| == 0 then []
    else
      var d := Distinct(vs[..|vs| - 1]);
      var last := vs[|vs| - 1];
      assert vs == vs[..|vs| - 1] + [last];
      if last in d then d else d + [last]
  }

  /**
   * After defining vs into a fresh table, the k-th distinct value (in order of
   * first definition) sits in slot k, exactly the values of vs are defined,
   * and the counter equals the number of distinct values.
   */
  lemma {:induction false} DefinitionOrder(vs: seq<int>)
    ensures var t := DefineAll(Empty, vs);
      && t.index == |Distinct(vs)|
      && (forall v :: v in t.slots <==> v in vs)
      && (forall k | 0 <= k < |Distinct(vs)| :: Distinct(vs)[k] in t.slots && t.slots[Distinct(vs)[k]] == k)
  {
    if |vs| > 0 {
      var init := vs[..|vs| - 1];
      var last := vs[|vs| - 1];
      assert vs == init + [last];
      DefinitionOrder(init);
      var t0 := DefineAll(Empty, init);
      var d0 := Distinct(init);
      var d := Distinct(vs);
      var t := DefineAll(Empty, vs);
      assert t == Define(t0, last);
      if last !in d0 {
        assert d == d0 + [last];
        forall k | 0 <= k < |d| ensures d[k] in t.slots && t.slots[d[k]] == k {
          if k < |d0| { assert d[k] == d0[k]; }
        }
      }
    }
  }

  /** Defining a sequence of values into a fresh table keeps the table well formed. */
  lemma {:induction false} DefineAllValid(vs: seq<int>)
    ensures Valid(DefineAll(Empty, vs))
  {
    if |vs| > 0 {
      DefineAllValid(vs[..|vs| - 1]);
    }
  }

  /** The number of entries equals the number of distinct values defined. */
  lemma EntryCount(vs: seq<int>)
    ensures |Entries(DefineAll(Empty, vs))| == |Distinct(vs)|
  {
    DefinitionOrder(vs);
    DefineAllValid(vs);
  }

  /** Defining a value a second time changes nothing. */
  lemma DefineIdempotent(t: LiteralTable, v: int)
    ensures Define(Define(t, v), v) == Define(t, v)
  {
  }

  /** A defined value keeps its slot whatever is defined after it, and the offset is never touched. */
  lemma {:induction false} SlotStable(t: LiteralTable, vs: seq<int>, v: int)
    requires v in t.slots
    ensures v in DefineAll(t, vs).slots && DefineAll(t, vs).slots[v] == t.slots[v]
    ensures DefineAll(t, vs).offset == t.offset
  {
    if |vs| > 0 {
      SlotStable(t, vs[..|vs| - 1], v);
    }
  }

  /** In a well-formed table, distinct defined values have distinct addresses (when no address overflows). */
  lemma DistinctAddresses(t: LiteralTable, v: int, w: int)
    requires Valid(t) && v in t.slots && w in t.slots && v != w
    requires IsInt(t.offset) && IsInt(t.offset + t.index)
    ensures GetAddress(t, v).Ok? && GetAddress(t, w).Ok?
    ensures GetAddress(t, v).value != GetAddress(t, w).value
  {
  }
}
