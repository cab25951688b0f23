/** Packed struct values.

    A struct type is an ordered list of named integer fields packed without
    padding: the first declared field occupies the least significant bits, the
    next one the bits just above it, and so on.  Reading or writing a field is
    reading or writing the slice over its bit range. */
module StructLayout {
  import opened BitValue
  import opened Wrappers

  /** One field of a struct type: its name and the bit width of its type. */
  datatype Field = Field(name: string, width: nat)

  function Widths(fields: seq<Field>): (ws: seq<nat>)
    ensures |ws| == |fields|
    ensures forall k :: 0 <= k < |fields| ==> ws[k] == fields[k].width
  {
    if fields == [] then [] else [fields[0].width] + Widths(fields[1..])
  }

  /** The bit offset of field k: the total width of the fields before it. */
  function Offset(widths: seq<nat>, k: nat): nat
    requires k <= |widths|
  {
    if k == 0 then 0 else widths[0] + Offset(widths[1..], k - 1)
  }

  /** The width of the whole struct. */
  function TotalWidth(widths: seq<nat>): nat
  {
    Offset(widths, |widths|)
  }

  /** The bits of a struct built from field values, least significant first. */
  function PackBits(vals: seq<nat>, widths: seq<nat>): (b: seq<bool>)
    requires |vals| == |widths|
  {
    if vals == [] then [] else ToBits(vals[0], widths[0]) + PackBits(vals[1..], widths[1..])
  }

  /** The struct value whose fields hold `vals` (each truncated to its width). */
  function Pack(vals: seq<nat>, widths: seq<nat>): nat
    requires |vals| == |widths|
  {
    FromBits(PackBits(vals, widths))
  }

  /** `x.field` for the k-th declared field. */
  function GetField(v: nat, widths: seq<nat>, k: nat): nat
    requires k < |widths|
  {
    GetSlice(v, Offset(widths, k), Offset(widths, k) + widths[k])
  }

  /** `x.field = a` for the k-th declared field of a struct cell holding `v`. */
  function SetField(v: nat, widths: seq<nat>, k: nat, a: nat): (r: nat)
    requires k < |widths|
    ensures r < Pow2(TotalWidth(widths))
  {
    FieldWithin(widths, k);
    SetSlice(v, TotalWidth(widths), Offset(widths, k), Offset(widths, k) + widths[k], a)
  }

  /** The position of the first field called `name`, if any. */
  function FieldIndex(fields: seq<Field>, name: string): (r: Option<nat>)
    ensures r.Some? ==> r.value < |fields| && fields[r.value].name == name
    ensures r.Some? ==> forall j :: 0 <= j < r.value ==> fields[j].name != name
    ensures r.None? ==> forall j :: 0 <= j < |fields| ==> fields[j].name != name
  {
    if fields == [] then None
    else if fields[0].name == name then Some(0)
    else match FieldIndex(fields[1..], name)
      case None => None
      case Some(k) => Some(k + 1)
  }

  /** `x.name` on a struct value: the field's value, or None for a name the
      struct type does not declare. */
  function GetFieldByName(v: nat, fields: seq<Field>, name: string): Option<nat>
  {
    match FieldIndex(fields, name)
    case None => None
    case Some(k) => Some(GetField(v, Widths(fields), k))
  }

  // ---------------------------------------------------------------------

  lemma {:induction false} FieldWithin(widths: seq<nat>, k: nat)
    requires k < |widths|
    ensures Offset(widths, k) + widths[k] <= TotalWidth(widths)
  {
    if k == 0 {
      OffsetMonotone(widths[1..], 0, |widths| - 1);
    } else {
      FieldWithin(widths[1..], k - 1);
    }
  }

  lemma {:induction false} OffsetMonotone(widths: seq<nat>, j: nat, k: nat)
    requires j <= k <= |widths|
    ensures Offset(widths, j) <= Offset(widths, k)
  {
    if j > 0 {
      OffsetMonotone(widths[1..], j - 1, k - 1);
    }
  }

  lemma {:induction false} PackBitsLength(vals: seq<nat>, widths: seq<nat>)
    requires |vals| == |widths|
    ensures |PackBits(vals, widths)| == TotalWidth(widths)
  {
    if vals != [] {
      PackBitsLength(vals[1..], widths[1..]);
    }
  }

  lemma {:induction false} PackBitsLayout(vals: seq<nat>, widths: seq<nat>, k: nat)
    requires |vals| == |widths| && k < |vals|
    requires Offset(widths, k) + widths[k] <= |PackBits(vals, widths)|
    ensures PackBits(vals, widths)[Offset(widths, k)..Offset(widths, k) + widths[k]]
         == ToBits(vals[k], widths[k])
  {
    var head := ToBits(vals[0], widths[0]);
    var rest := PackBits(vals[1..], widths[1..]);
    if k > 0 {
      var o := Offset(widths[1..], k - 1);
      FieldWithin(widths[1..], k - 1);
      PackBitsLength(vals[1..], widths[1..]);
      PackBitsLayout(vals[1..], widths[1..], k - 1);
      assert (head + rest)[widths[0] + o..widths[0] + o + widths[k]] == rest[o..o + widths[k]];
    }
  }

  /** Packing then reading field k gives back the value stored in field k,
      truncated to the field's width: fields are laid out from the least
      significant bit in declaration order and do not overlap. */
  lemma PackGetField(vals: seq<nat>, widths: seq<nat>, k: nat)
    requires |vals| == |widths| && k < |vals|
    ensures GetField(Pack(vals, widths), widths, k) == vals[k] % Pow2(widths[k])
  {
    var b := PackBits(vals, widths);
    var lo, hi := Offset(widths, k), Offset(widths, k) + widths[k];
    FieldWithin(widths, k);
    PackBitsLength(vals, widths);
    PackBitsLayout(vals, widths, k);
    ToFromBits(b);
    ToBitsPrefix(FromBits(b), |b|, hi);
    assert ToBits(Pack(vals, widths), hi)[lo..] == b[lo..hi];
    FromToBits(vals[k], widths[k]);
  }

  lemma OtherFieldKept(v: nat, widths: seq<nat>, k: nat, j: nat, a: nat, i: nat)
    requires k < |widths| && j < |widths| && j != k && i < widths[j]
    ensures GetBit(GetField(SetField(v, widths, k, a), widths, j), i)
         == GetBit(GetField(v, widths, j), i)
  {
    FieldWithin(widths, k);
    FieldWithin(widths, j);
    FieldsDisjoint(widths, j, k);
    OtherSliceKept(v, TotalWidth(widths), Offset(widths, k), Offset(widths, k) + widths[k], a,
                   Offset(widths, j), Offset(widths, j) + widths[j], i);
  }

  /** Writing one bit range leaves every bit of a disjoint range as it was. */
  lemma OtherSliceKept(v: nat, w: nat, lo: nat, hi: nat, a: nat, lo2: nat, hi2: nat, i: nat)
    requires lo <= hi <= w && lo2 <= hi2 <= w && i < hi2 - lo2 && (hi2 <= lo || hi <= lo2)
    ensures GetBit(GetSlice(SetSlice(v, w, lo, hi, a), lo2, hi2), i) == GetBit(GetSlice(v, lo2, hi2), i)
  {
    SliceBitsAt(SetSlice(v, w, lo, hi, a), lo2, hi2, i, lo2 + i);
    SliceBitsAt(v, lo2, hi2, i, lo2 + i);
    KeptBit(v, w, lo, hi, a, lo2 + i);
  }

  /** Writing field k changes field k to the written value and leaves every
      other field as it was. */
  lemma SetFieldGetField(v: nat, widths: seq<nat>, k: nat, j: nat, a: nat)
    requires k < |widths| && j < |widths|
    ensures GetField(SetField(v, widths, k, a), widths, j)
         == if j == k then a % Pow2(widths[k]) else GetField(v, widths, j)
  {
    FieldWithin(widths, k);
    if j == k {
      GetSetSlice(v, TotalWidth(widths), Offset(widths, k), Offset(widths, k) + widths[k], a);
    } else {
      var r := SetField(v, widths, k, a);
      forall i | 0 <= i < widths[j]
        ensures GetBit(GetField(r, widths, j), i) == GetBit(GetField(v, widths, j), i)
      {
        OtherFieldKept(v, widths, k, j, a, i);
      }
      BitsDetermineValue(GetField(r, widths, j), GetField(v, widths, j), widths[j]);
    }
  }

  lemma {:induction false} FieldsDisjoint(widths: seq<nat>, j: nat, k: nat)
    requires j < |widths| && k < |widths| && j != k
    ensures Offset(widths, j) + widths[j] <= Offset(widths, k)
         || Offset(widths, k) + widths[k] <= Offset(widths, j)
  {
    if j > 0 && k > 0 {
      FieldsDisjoint(widths[1..], j - 1, k - 1);
    } else if j == 0 {
      OffsetMonotone(widths[1..], 0, k - 1);
    } else {
      OffsetMonotone(widths[1..], 0, j - 1);
    }
  }

  /** In the struct `{x: UInt(8), y: UInt(8)}`, x is the low byte of the
      value and y the byte above it. */
  lemma XyStructFields(v: nat)
    ensures GetFieldByName(v, [Field("x", 8), Field("y", 8)], "x") == Some(v % 256)
    ensures GetFieldByName(v, [Field("x", 8), Field("y", 8)], "y") == Some((v / 256) % 256)
  {
    var fields := [Field("x", 8), Field("y", 8)];
    assert Widths(fields) == [8, 8];
    assert FieldIndex(fields, "x") == Some(0);
    assert FieldIndex(fields, "y") == Some(1);
    assert Offset([8, 8], 0) == 0 && Offset([8, 8], 1) == 8;
    assert Pow2(0) == 1 && Pow2(8) == 256;
    SliceIsShiftAndMask(v, 0, 8);
    SliceIsShiftAndMask(v, 8, 16);
  }

  /** Initialised with 0x0102, that struct has x == 2 and y == 1. */
  lemma XyStructScenario()
    ensures GetFieldByName(0x0102, [Field("x", 8), Field("y", 8)], "x") == Some(2)
    ensures GetFieldByName(0x0102, [Field("x", 8), Field("y", 8)], "y") == Some(1)
  {
    assert 0x0102 % 256 == 2 && (0x0102 / 256) % 256 == 1;
    XyStructFields(0x0102);
  }
}
