/** The mapping between DSL data types, MLIR types and data type strings
    (`python/heterocl/utils.py`).

    MLIR types are modelled by the attributes the mapping inspects; a
    Python argument is one of the kinds the dispatch chains tell apart. */
module TypeMapping {
  import opened Wrappers
  import opened Decimal

  datatype Signedness = Signless | Signed | Unsigned

  /** F16 to F128 are the float types the string mapping names; Other
      stands for every other floating-point type (bf16, f8, ...). */
  datatype FloatKind = F16 | F32 | F64 | F80 | F128 | OtherFloat

  datatype MlirType =
    | IntegerType(width: nat, signedness: Signedness)
    | FixedType(width: nat, frac: nat)
    | UFixedType(width: nat, frac: nat)
    | FloatType(kind: FloatKind)
    | IndexType
    | StructType(elems: seq<MlirType>)
    | OpaqueType   // any other MLIR type: memref, tensor, none, ...

  /** The DSL's scalar and struct types; a struct's fields in declaration
      order. */
  datatype DType =
    | Int(bits: nat)
    | UInt(bits: nat)
    | Fixed(bits: nat, fracs: nat)
    | UFixed(bits: nat, fracs: nat)
    | Float(bits: nat)
    | Struct(fields: seq<(string, DType)>)

  /** What a Python argument of these functions can be. */
  datatype Value =
    | MlirValue(ty: MlirType)
    | DslValue(dtype: DType)
    | StrValue(s: string)
    | NoneValue
    | OtherValue

  /** The default data type of `hcl.init`: a DSL type or a string. */
  datatype Named = NamedType(dtype: DType) | NamedStr(s: string)

  datatype TypeError =
    | NotSupportedType     // hcl_dtype_to_mlir: not a DSL type
    | UnknownFloat         // get_mlir_dtype_str: a float type it does not name
    | BadArgument          // get_dtype_str: neither a type nor a string
    | NotMlir              // get_extra_type_hints: not an MLIR type
    | FieldWithoutType     // a struct field whose conversion gave no type

  // ---------------------------------------------------------------------
  // hcl_dtype_to_mlir

  /** The first error among the converted fields, else the struct of their
      types; a field that converted to nothing cannot be put in a struct. */
  function Collect(rs: seq<Result<Option<MlirType>, TypeError>>): (r: Result<seq<MlirType>, TypeError>)
    ensures r.Ok? ==> |r.value| == |rs| && forall k :: 0 <= k < |rs| ==> rs[k] == Ok(Some(r.value[k]))
    ensures r.Ok? <==> forall k :: 0 <= k < |rs| ==> rs[k].Ok? && rs[k].value.Some?
  {
    if rs == [] then Ok([])
    else
      match Collect(rs[..|rs| - 1])
      case Err(e) => Err(e)
      case Ok(ts) =>
        match rs[|rs| - 1]
        case Err(e) => Err(e)
        case Ok(None) => Err(FieldWithoutType)
        case Ok(Some(t)) => Ok(ts + [t])
  }

  /** A DSL type as an MLIR type. A float of another width than 16, 32 or
      64 gives no type; struct fields are converted without `signless`. */
  function ConvertDType(d: DType, signless: bool): Result<Option<MlirType>, TypeError>
    decreases d
  {
    match d
    case Int(b) => Ok(Some(IntegerType(b, Signless)))
    case UInt(b) => Ok(Some(IntegerType(b, if signless then Signless else Unsigned)))
    case Fixed(b, f) => Ok(Some(FixedType(b, f)))
    case UFixed(b, f) => Ok(Some(UFixedType(b, f)))
    case Float(b) =>
      if b == 16 then Ok(Some(FloatType(F16)))
      else if b == 32 then Ok(Some(FloatType(F32)))
      else if b == 64 then Ok(Some(FloatType(F64)))
      else Ok(None)
    case Struct(fields) =>
      var rs := seq(|fields|, k requires 0 <= k < |fields| => ConvertDType(fields[k].1, false));
      match Collect(rs)
      case Err(e) => Err(e)
      case Ok(ts) => Ok(Some(StructType(ts)))
  }

  /** `hcl_dtype_to_mlir(dtype, signless)`: an MLIR type is returned as it
      is, a DSL type converted, anything else refused. */
  function HclDtypeToMlir(v: Value, signless: bool): (r: Result<Option<MlirType>, TypeError>)
    ensures v.MlirValue? ==> r == Ok(Some(v.ty))
    ensures !v.MlirValue? && !v.DslValue? ==> r == Err(NotSupportedType)
  {
    match v
    case MlirValue(t) => Ok(Some(t))
    case DslValue(d) => ConvertDType(d, signless)
    case _ => Err(NotSupportedType)
  }

  // ---------------------------------------------------------------------
  // get_mlir_dtype_str, get_dtype_str, get_extra_type_hints

  /** `get_mlir_dtype_str(dtype)`: None for types it has no name for. */
  function MlirDtypeStr(t: MlirType): Result<Option<string>, TypeError>
  {
    match t
    case IntegerType(w, sg) => Ok(Some((if sg == Unsigned then "uint" else "int") + NatToString(w)))
    case FloatType(k) =>
      (match k
       case F16 => Ok(Some("float16"))
       case F32 => Ok(Some("float32"))
       case F64 => Ok(Some("float64"))
       case F80 => Ok(Some("float80"))
       case F128 => Ok(Some("float128"))
       case OtherFloat => Err(UnknownFloat))
    case FixedType(w, f) => Ok(Some("fixed" + NatToString(w) + "_" + NatToString(f)))
    case UFixedType(w, f) => Ok(Some("ufixed" + NatToString(w) + "_" + NatToString(f)))
    case IndexType => Ok(Some("int32"))
    case _ => Ok(None)
  }

  /** `get_dtype_str(dtype)`; `dtypeToStr` is the DSL's own naming of its
      types, and `init` the default data type. */
  function GetDtypeStr(v: Value, init: Named, dtypeToStr: DType -> string): (r: Result<Option<string>, TypeError>)
    ensures v.MlirValue? ==> r == MlirDtypeStr(v.ty)
    ensures v.OtherValue? <==> r == Err(BadArgument)
    ensures v.StrValue? ==> r == Ok(Some(v.s))
    ensures v.DslValue? ==> r == Ok(Some(dtypeToStr(v.dtype)))
  {
    match v
    case MlirValue(t) => MlirDtypeStr(t)
    case OtherValue => Err(BadArgument)
    case StrValue(s) => Ok(Some(s))
    case DslValue(d) => Ok(Some(dtypeToStr(d)))
    case NoneValue =>
      match init
      case NamedStr(s) => Ok(Some(s))
      case NamedType(d) => Ok(Some(dtypeToStr(d)))
  }

  /** `get_extra_type_hints(dtype)`: how an argument of this type is passed
      to the generated code. */
  function ExtraTypeHints(v: Value): (r: Result<string, TypeError>)
    ensures r.Err? <==> !v.MlirValue?
    ensures r.Ok? ==> r.value in {"u", "s", "_"}
  {
    match v
    case MlirValue(IntegerType(_, sg)) => Ok(if sg == Unsigned then "u" else "s")
    case MlirValue(_) => Ok("_")
    case _ => Err(NotMlir)
  }

  // ---------------------------------------------------------------------
  // Reading a data type string back

  /** The position of the first underscore. */
  function Underscore(s: string): (r: Option<nat>)
    ensures r.Some? ==> r.value < |s| && s[r.value] == '_' && '_' !in s[..r.value]
    ensures r.None? ==> '_' !in s
  {
    if s == [] then None
    else if s[0] == '_' then Some(0)
    else match Underscore(s[1..])
      case None => None
      case Some(k) => Some(k + 1)
  }

  /** `w_f` with both parts decimal. */
  function ParseFixedParts(s: string): Option<(nat, nat)>
  {
    match Underscore(s)
    case None => None
    case Some(k) =>
      match (ParseNat(s[..k]), ParseNat(s[k + 1..]))
      case (Some(w), Some(f)) => Some((w, f))
      case _ => None
  }

  function HasPrefix(s: string, p: string): bool
  {
    |p| <= |s| && s[..|p|] == p
  }

  /** The MLIR type a data type string names. */
  function ParseDtypeStr(s: string): Option<MlirType>
  {
    if HasPrefix(s, "float") then
      (match ParseNat(s[5..])
       case Some(16) => Some(FloatType(F16))
       case Some(32) => Some(FloatType(F32))
       case Some(64) => Some(FloatType(F64))
       case Some(80) => Some(FloatType(F80))
       case Some(128) => Some(FloatType(F128))
       case _ => None)
    else if HasPrefix(s, "ufixed") then
      (match ParseFixedParts(s[6..])
       case None => None
       case Some(wf) => Some(UFixedType(wf.0, wf.1)))
    else if HasPrefix(s, "fixed") then
      (match ParseFixedParts(s[5..])
       case None => None
       case Some(wf) => Some(FixedType(wf.0, wf.1)))
    else if HasPrefix(s, "uint") then
      (match ParseNat(s[4..])
       case None => None
       case Some(w) => Some(IntegerType(w, Unsigned)))
    else if HasPrefix(s, "int") then
      (match ParseNat(s[3..])
       case None => None
       case Some(w) => Some(IntegerType(w, Signed)))
    else None
  }

  /** The type a string identifies: signless integers print as signed ones,
      and the index type as a 32-bit signed integer. */
  function Canonical(t: MlirType): MlirType
  {
    match t
    case IntegerType(w, Signless) => IntegerType(w, Signed)
    case IndexType => IntegerType(32, Signed)
    case _ => t
  }

  // ---------------------------------------------------------------------
  // Properties

  lemma FixedPartsRoundTrip(w: nat, f: nat)
    ensures ParseFixedParts(NatToString(w) + "_" + NatToString(f)) == Some((w, f))
  {
    var a, b := NatToString(w), NatToString(f);
    var s := a + "_" + b;
    assert s[..|a|] == a;
    assert s[|a|] == '_';
    assert '_' !in a;
    assert Underscore(s) == Some(|a|) by {
      UnderscoreAt(a, b);
    }
    assert s[|a| + 1..] == b;
    ParseNatToString(w);
    ParseNatToString(f);
  }

  lemma {:induction false} UnderscoreAt(a: string, b: string)
    requires '_' !in a
    ensures Underscore(a + "_" + b) == Some(|a|)
    decreases |a|
  {
    if a != [] {
      assert (a + "_" + b)[1..] == a[1..] + "_" + b;
      UnderscoreAt(a[1..], b);
    }
  }

  /** A string starting with p does not start with a q that differs from
      p at position i. */
  lemma PrefixMismatch(s: string, p: string, q: string, i: nat)
    requires HasPrefix(s, p) && i < |p| && i < |q| && p[i] != q[i]
    ensures !HasPrefix(s, q)
  {
    assert s[..|p|][i] == p[i];
    assert |q| <= |s| ==> s[..|q|][i] == s[i];
  }

  lemma PrefixThen(p: string, rest: string)
    ensures HasPrefix(p + rest, p) && (p + rest)[|p|..] == rest
  {
    assert (p + rest)[..|p|] == p;
  }

  lemma SignedRoundTrip(w: nat)
    ensures ParseDtypeStr("int" + NatToString(w)) == Some(IntegerType(w, Signed))
  {
    var s := "int" + NatToString(w);
    PrefixThen("int", NatToString(w));
    PrefixMismatch(s, "int", "float", 0);
    PrefixMismatch(s, "int", "ufixed", 0);
    PrefixMismatch(s, "int", "fixed", 0);
    PrefixMismatch(s, "int", "uint", 0);
    ParseNatToString(w);
  }

  lemma UnsignedRoundTrip(w: nat)
    ensures ParseDtypeStr("uint" + NatToString(w)) == Some(IntegerType(w, Unsigned))
  {
    var s := "uint" + NatToString(w);
    PrefixThen("uint", NatToString(w));
    PrefixMismatch(s, "uint", "float", 0);
    PrefixMismatch(s, "uint", "ufixed", 1);
    PrefixMismatch(s, "uint", "fixed", 0);
    ParseNatToString(w);
  }

  lemma FixedRoundTrip(w: nat, f: nat)
    ensures ParseDtypeStr("fixed" + NatToString(w) + "_" + NatToString(f)) == Some(FixedType(w, f))
  {
    var p := NatToString(w) + "_" + NatToString(f);
    assert "fixed" + NatToString(w) + "_" + NatToString(f) == "fixed" + p;
    var s := "fixed" + p;
    PrefixThen("fixed", p);
    PrefixMismatch(s, "fixed", "float", 1);
    PrefixMismatch(s, "fixed", "ufixed", 0);
    FixedPartsRoundTrip(w, f);
  }

  lemma UFixedRoundTrip(w: nat, f: nat)
    ensures ParseDtypeStr("ufixed" + NatToString(w) + "_" + NatToString(f)) == Some(UFixedType(w, f))
  {
    var p := NatToString(w) + "_" + NatToString(f);
    assert "ufixed" + NatToString(w) + "_" + NatToString(f) == "ufixed" + p;
    var s := "ufixed" + p;
    PrefixThen("ufixed", p);
    PrefixMismatch(s, "ufixed", "float", 0);
    FixedPartsRoundTrip(w, f);
  }

  /** The width a float kind is named by. */
  function FloatBits(k: FloatKind): nat
  {
    match k
    case F16 => 16
    case F32 => 32
    case F64 => 64
    case F80 => 80
    case F128 => 128
    case OtherFloat => 0
  }

  lemma FloatRoundTrip(k: FloatKind)
    requires k != OtherFloat
    ensures ParseDtypeStr("float" + NatToString(FloatBits(k))) == Some(FloatType(k))
  {
    PrefixThen("float", NatToString(FloatBits(k)));
    ParseNatToString(FloatBits(k));
  }

  /** A float type is named "float" and its width. */
  lemma FloatLiteral(k: FloatKind)
    requires k != OtherFloat
    ensures MlirDtypeStr(FloatType(k)) == Ok(Some("float" + NatToString(FloatBits(k))))
  {
    match k
    case F16 => assert NatToString(16) == "16"; assert "float" + "16" == "float16";
    case F32 => assert NatToString(32) == "32"; assert "float" + "32" == "float32";
    case F64 => assert NatToString(64) == "64"; assert "float" + "64" == "float64";
    case F80 => assert NatToString(80) == "80"; assert "float" + "80" == "float80";
    case F128 => assert NatToString(128) == "128"; assert "float" + "128" == "float128";
  }

  lemma FloatNames(k: FloatKind)
    requires k != OtherFloat
    ensures MlirDtypeStr(FloatType(k)).Ok? && MlirDtypeStr(FloatType(k)).value.Some?
    ensures ParseDtypeStr(MlirDtypeStr(FloatType(k)).value.value) == Some(FloatType(k))
  {
    FloatLiteral(k);
    FloatRoundTrip(k);
  }

  /** The index type is named as a 32-bit signed integer. */
  lemma IndexRoundTrip()
    ensures MlirDtypeStr(IndexType) == Ok(Some("int" + NatToString(32)))
    ensures ParseDtypeStr("int" + NatToString(32)) == Some(IntegerType(32, Signed))
  {
    assert NatToString(32) == "32";
    assert "int" + "32" == "int32";
    SignedRoundTrip(32);
  }

  /** Every name `get_mlir_dtype_str` gives reads back as the type it named,
      up to the identifications of `Canonical`. */
  lemma DtypeStrRoundTrip(t: MlirType)
    ensures MlirDtypeStr(t).Ok? && MlirDtypeStr(t).value.Some? ==>
      ParseDtypeStr(MlirDtypeStr(t).value.value) == Some(Canonical(t))
  {
    match t
    case IntegerType(w, sg) =>
      if sg == Unsigned {
        UnsignedRoundTrip(w);
      } else {
        SignedRoundTrip(w);
      }
    case FixedType(w, f) =>
      FixedRoundTrip(w, f);
    case UFixedType(w, f) =>
      UFixedRoundTrip(w, f);
    case IndexType =>
      IndexRoundTrip();
    case FloatType(k) =>
      if k != OtherFloat {
        FloatNames(k);
      }
    case StructType(_) =>
    case OpaqueType =>
  }

  /** Two types with the same name are the same type up to `Canonical`. */
  lemma DtypeStrInjective(t1: MlirType, t2: MlirType)
    requires MlirDtypeStr(t1).Ok? && MlirDtypeStr(t1).value.Some?
    requires MlirDtypeStr(t1) == MlirDtypeStr(t2)
    ensures Canonical(t1) == Canonical(t2)
  {
    DtypeStrRoundTrip(t1);
    DtypeStrRoundTrip(t2);
  }

  /** The hint is "u" exactly for the types whose name starts with "uint",
      and "s" only for types whose name starts with "int". */
  lemma HintAgreesWithStr(t: MlirType)
    requires MlirDtypeStr(t).Ok? && MlirDtypeStr(t).value.Some?
    ensures ExtraTypeHints(MlirValue(t)) == Ok("u") <==> HasPrefix(MlirDtypeStr(t).value.value, "uint")
    ensures ExtraTypeHints(MlirValue(t)) == Ok("s") ==> HasPrefix(MlirDtypeStr(t).value.value, "int")
  {
    var s := MlirDtypeStr(t).value.value;
    match t
    case IntegerType(w, sg) =>
      if sg == Unsigned {
        assert s[..4] == "uint";
      } else {
        assert s[..3] == "int";
        assert s[0] == 'i';
      }
    case FixedType(_, _) =>
      assert s[0] == 'f';
    case UFixedType(_, _) =>
      assert s[..6] == "ufixed";
      assert s[1] == 'f';
    case FloatType(_) =>
      assert s[0] == 'f';
    case IndexType =>
      assert s[..4][0] == 'i';
    case StructType(_) =>
    case OpaqueType =>
  }

  /** The integer or fixed-point width of a type, 0 for others. */
  function Width(t: MlirType): nat
  {
    match t
    case IntegerType(w, _) => w
    case FixedType(w, _) => w
    case UFixedType(w, _) => w
    case _ => 0
  }

  /** A scalar DSL type converts to a type of its width, unsigned exactly
      for `UInt` without `signless`, and the hint follows. */
  lemma ConvertScalar(d: DType, signless: bool)
    requires d.Int? || d.UInt? || d.Fixed? || d.UFixed?
    ensures ConvertDType(d, signless).Ok? && ConvertDType(d, signless).value.Some?
    ensures var t := ConvertDType(d, signless).value.value;
      Width(t) == d.bits &&
      (t.IntegerType? <==> d.Int? || d.UInt?) &&
      (ExtraTypeHints(MlirValue(t)) == Ok("u") <==> d.UInt? && !signless) &&
      ((d.Fixed? || d.UFixed?) ==> t.frac == d.fracs)
  {
  }

  /** A float converts exactly when its width is 16, 32 or 64, to the type
      whose name is "float" and that width. */
  lemma ConvertFloat(b: nat)
    ensures ConvertDType(Float(b), false).Ok?
    ensures ConvertDType(Float(b), false).value.Some? <==> b in {16, 32, 64}
    ensures ConvertDType(Float(b), false).value.Some? ==>
      MlirDtypeStr(ConvertDType(Float(b), false).value.value) == Ok(Some("float" + NatToString(b)))
  {
    if b == 16 {
      assert NatToString(16) == "16" && "float" + "16" == "float16";
    } else if b == 32 {
      assert NatToString(32) == "32" && "float" + "32" == "float32";
    } else if b == 64 {
      assert NatToString(64) == "64" && "float" + "64" == "float64";
    }
  }

  /** A struct converts to the struct of its fields' types, in order, each
      converted without `signless`; the flag given for the struct is
      ignored. */
  lemma ConvertStruct(fields: seq<(string, DType)>, signless: bool)
    ensures ConvertDType(Struct(fields), signless) == ConvertDType(Struct(fields), false)
    ensures var r := ConvertDType(Struct(fields), signless);
      r.Ok? ==>
        (r.value.Some? && r.value.value.StructType? && |r.value.value.elems| == |fields| &&
         forall k :: 0 <= k < |fields| ==> ConvertDType(fields[k].1, false) == Ok(Some(r.value.value.elems[k])))
    ensures var r := ConvertDType(Struct(fields), signless);
      r.Ok? <==> forall k :: 0 <= k < |fields| ==>
        ConvertDType(fields[k].1, false).Ok? && ConvertDType(fields[k].1, false).value.Some?
  {
    var rs := seq(|fields|, k requires 0 <= k < |fields| => ConvertDType(fields[k].1, false));
    assert forall k :: 0 <= k < |fields| ==> rs[k] == ConvertDType(fields[k].1, false);
  }

  /** The names the DSL gives its scalar types. */
  function DslName(d: DType): string
  {
    match d
    case Int(b) => "int" + NatToString(b)
    case UInt(b) => "uint" + NatToString(b)
    case Fixed(b, f) => "fixed" + NatToString(b) + "_" + NatToString(f)
    case UFixed(b, f) => "ufixed" + NatToString(b) + "_" + NatToString(f)
    case Float(b) => "float" + NatToString(b)
    case Struct(_) => "struct"
  }

  /** When the DSL names its types that way, `get_dtype_str` gives the same
      string for a scalar DSL type as for the MLIR type it converts to. */
  lemma DtypeStrBothRoutes(d: DType, init: Named)
    requires d.Int? || d.UInt? || d.Fixed? || d.UFixed? || (d.Float? && d.bits in {16, 32, 64})
    ensures ConvertDType(d, false).Ok? && ConvertDType(d, false).value.Some?
    ensures GetDtypeStr(MlirValue(ConvertDType(d, false).value.value), init, DslName)
         == GetDtypeStr(DslValue(d), init, DslName)
  {
    if d.Float? {
      ConvertFloat(d.bits);
    }
  }

  /** `get_dtype_str(None)` names the default type, by either form. */
  lemma DefaultDtypeStr(init: Named, dtypeToStr: DType -> string)
    ensures GetDtypeStr(NoneValue, init, dtypeToStr)
         == Ok(Some(if init.NamedStr? then init.s else dtypeToStr(init.dtype)))
  {
  }

  /** A few conversions and names, spelled out. */
  lemma Examples()
    ensures HclDtypeToMlir(DslValue(UInt(8)), false) == Ok(Some(IntegerType(8, Unsigned)))
    ensures HclDtypeToMlir(DslValue(UInt(8)), true) == Ok(Some(IntegerType(8, Signless)))
    ensures HclDtypeToMlir(DslValue(Float(8)), false) == Ok(None)
    ensures HclDtypeToMlir(StrValue("int32"), false) == Err(NotSupportedType)
    ensures MlirDtypeStr(IntegerType(32, Signless)) == Ok(Some("int32"))
    ensures MlirDtypeStr(UFixedType(12, 4)) == Ok(Some("ufixed12_4"))
    ensures ExtraTypeHints(MlirValue(IndexType)) == Ok("_")
    ensures ExtraTypeHints(DslValue(Int(32))) == Err(NotMlir)
  {
    assert NatToString(32) == "32"; assert "float" + "32" == "float32";
    assert "int" + "32" == "int32";
    assert NatToString(12) == "12" && NatToString(4) == "4";
    assert "ufixed" + "12" + "_" + "4" == "ufixed12_4";
  }
}
