/** The recursive value type that commands and properties exchange, and its protocol-buffer form. */
module Codec {
  import opened Outcomes
  import opened Tensors

  type Int64 = i: int | -0x8000_0000_0000_0000 <= i < 0x8000_0000_0000_0000
  type Size = n: nat | n < 0x1_0000_0000_0000_0000

  /** A tensor with its four stored dimensions and as many bytes as they and the type call for. */
  datatype RawTensor = Tensor(dtype: DataType, rank: nat, dims: seq<Size>, data: seq<Byte>)

  predicate WellSized(t: RawTensor) {
    t.rank <= 4 && |t.dims| == 4 && |t.data| == NumElements(t.dims) * SizeOf(t.dtype)
  }

  type Tensor = t: RawTensor | WellSized(t) witness RawTensor.Tensor(Unknown, 0, [1, 1, 1, 1], [])

  datatype Value =
    | NoneValue
    | IntValue(i: Int64)
    | DoubleValue(bits: bv64)
    | StringValue(s: string)
    | BoolValue(b: bool)
    | DictValue(dict: map<string, Value>)
    | ListValue(list: seq<Value>)
    | TensorValue(tensor: Tensor)

  datatype ProtoTensor = ProtoTensor(dtype: string, dims: seq<Int64>, data: seq<Byte>)

  /** The `oneof` of the message; a message from elsewhere may have none of its cases set. */
  datatype Proto =
    | Unset
    | ProtoNone
    | ProtoInt(i: Int64)
    | ProtoDouble(bits: bv64)
    | ProtoString(s: string)
    | ProtoBool(b: bool)
    | ProtoDict(items: map<string, Proto>)
    | ProtoList(elements: seq<Proto>)
    | ProtoTensorValue(tensor: ProtoTensor)

  // ----- element type codes -----

  function TypeCode(t: DataType): string {
    match t
    case UInt8 => "B"
    case UInt16 => "H"
    case UInt32 => "I"
    case UInt64 => "Q"
    case Int8 => "b"
    case Int16 => "h"
    case Int32 => "i"
    case Int64 => "q"
    case Float32 => "f"
    case Float64 => "d"
    case Complex64 => "F"
    case Complex128 => "D"
    case Unknown => "unknown"
  }

  function FullName(t: DataType): string {
    match t
    case UInt8 => "uint8"
    case UInt16 => "uint16"
    case UInt32 => "uint32"
    case UInt64 => "uint64"
    case Int8 => "int8"
    case Int16 => "int16"
    case Int32 => "int32"
    case Int64 => "int64"
    case Float32 => "float32"
    case Float64 => "float64"
    case Complex64 => "complex64"
    case Complex128 => "complex128"
    case Unknown => "unknown"
  }

  function TypeFromString(s: string): DataType {
    if s == "B" || s == "uint8" then UInt8
    else if s == "H" || s == "uint16" then UInt16
    else if s == "I" || s == "uint32" then UInt32
    else if s == "Q" || s == "L" || s == "uint64" then UInt64
    else if s == "b" || s == "int8" then Int8
    else if s == "h" || s == "int16" then Int16
    else if s == "i" || s == "int32" then Int32
    else if s == "q" || s == "l" || s == "int64" then Int64
    else if s == "f" || s == "float32" then Float32
    else if s == "d" || s == "float64" then Float64
    else if s == "F" || s == "complex64" || s == "Zf" then Complex64
    else if s == "D" || s == "complex128" || s == "Zd" then Complex128
    else Unknown
  }

  lemma TypeCodeRoundTrip(t: DataType)
    ensures TypeFromString(TypeCode(t)) == t
  {
  }

  lemma FullNameRoundTrip(t: DataType)
    ensures TypeFromString(FullName(t)) == t
  {
  }

  /** Both names of every element type, the unknown one included, are read back as that type. */
  lemma TypeNamesRoundTrip(t: DataType)
    ensures TypeFromString(TypeCode(t)) == t && TypeFromString(FullName(t)) == t
  {
    TypeCodeRoundTrip(t);
    FullNameRoundTrip(t);
  }

  /** Every spelling that is understood, those of PEP 3118 and of C's long included. */
  function Spellings(t: DataType): seq<string> {
    match t
    case UInt8 => ["B", "uint8"]
    case UInt16 => ["H", "uint16"]
    case UInt32 => ["I", "uint32"]
    case UInt64 => ["Q", "uint64", "L"]
    case Int8 => ["b", "int8"]
    case Int16 => ["h", "int16"]
    case Int32 => ["i", "int32"]
    case Int64 => ["q", "int64", "l"]
    case Float32 => ["f", "float32"]
    case Float64 => ["d", "float64"]
    case Complex64 => ["F", "complex64", "Zf"]
    case Complex128 => ["D", "complex128", "Zd"]
    case Unknown => ["unknown"]
  }

  lemma SpellingsAreNames(t: DataType)
    requires t != Unknown
    ensures var n := Spellings(t);
            && 2 <= |n| <= 3 && n[0] == TypeCode(t) && n[1] == FullName(t)
            && (|n| == 3 ==> ((n[2] == "L" && t == UInt64) || (n[2] == "l" && t == Int64)
                              || (n[2] == "Zf" && t == Complex64) || (n[2] == "Zd" && t == Complex128)))
  {
  }

  lemma ReadIsSpelled(s: string)
    ensures TypeFromString(s) != Unknown ==> s in Spellings(TypeFromString(s))
  {
    var n := Spellings(TypeFromString(s));
    assert |n| >= 2 ==> n[0] in n && n[1] in n;
    assert |n| == 3 ==> n[2] in n;
  }

  /** A spelling is read as its type, and nothing else is: any other string is unknown. */
  lemma SpellingsRead(s: string, t: DataType)
    requires t != Unknown
    ensures TypeFromString(s) == t <==> s in Spellings(t)
  {
    if TypeFromString(s) == t { ReadIsSpelled(s); }
    if i :| 0 <= i < |Spellings(t)| && Spellings(t)[i] == s {
      SpellingsAreNames(t);
      TypeCodeRoundTrip(t);
      FullNameRoundTrip(t);
      OtherSpellings();
    }
  }

  lemma OtherSpellings()
    ensures TypeFromString("L") == UInt64 && TypeFromString("l") == Int64
    ensures TypeFromString("Zf") == Complex64 && TypeFromString("Zd") == Complex128
  {
  }

  /** The number a name ends in. */
  function Number(name: string): nat {
    if name == "" || !('0' <= name[|name| - 1] <= '9') then 0
    else 10 * Number(name[..|name| - 1]) + (name[|name| - 1] as int - '0' as int)
  }

  lemma OneDigit(stem: string, a: char)
    requires (stem == "" || !('0' <= stem[|stem| - 1] <= '9')) && '0' <= a <= '9'
    ensures Number(stem + [a]) == a as int - '0' as int
  {
    assert (stem + [a])[..|stem|] == stem;
  }

  lemma OneMoreDigit(name: string, a: char)
    requires '0' <= a <= '9'
    ensures Number(name + [a]) == 10 * Number(name) + (a as int - '0' as int)
  {
    assert (name + [a])[..|name|] == name;
  }

  /** The size of an element is the number of bits in its type's name; unknown elements have no size. */
  lemma SizeIsInTheName(t: DataType)
    ensures t.Unknown? ==> SizeOf(t) == 0
    ensures !t.Unknown? ==> 8 * SizeOf(t) == Number(FullName(t))
  {
    if t.UInt8? || t.UInt16? || t.UInt32? || t.UInt64? {
      UnsignedSizes(t);
    } else if t.Int8? || t.Int16? || t.Int32? || t.Int64? {
      SignedSizes(t);
    } else if !t.Unknown? {
      FloatSizes(t);
    }
  }

  lemma UnsignedSizes(t: DataType)
    requires t.UInt8? || t.UInt16? || t.UInt32? || t.UInt64?
    ensures 8 * SizeOf(t) == Number(FullName(t))
  {
    match t
    case UInt8 => OneDigit("uint", '8'); assert "uint" + ['8'] == "uint8";
    case UInt16 => TwoDigits("uint", '1', '6'); assert "uint" + ['1'] + ['6'] == "uint16";
    case UInt32 => TwoDigits("uint", '3', '2'); assert "uint" + ['3'] + ['2'] == "uint32";
    case UInt64 => TwoDigits("uint", '6', '4'); assert "uint" + ['6'] + ['4'] == "uint64";
  }

  lemma SignedSizes(t: DataType)
    requires t.Int8? || t.Int16? || t.Int32? || t.Int64?
    ensures 8 * SizeOf(t) == Number(FullName(t))
  {
    match t
    case Int8 => OneDigit("int", '8'); assert "int" + ['8'] == "int8";
    case Int16 => TwoDigits("int", '1', '6'); assert "int" + ['1'] + ['6'] == "int16";
    case Int32 => TwoDigits("int", '3', '2'); assert "int" + ['3'] + ['2'] == "int32";
    case Int64 => TwoDigits("int", '6', '4'); assert "int" + ['6'] + ['4'] == "int64";
  }

  lemma FloatSizes(t: DataType)
    requires t.Float32? || t.Float64? || t.Complex64? || t.Complex128?
    ensures 8 * SizeOf(t) == Number(FullName(t))
  {
    match t
    case Float32 => TwoDigits("float", '3', '2'); assert "float" + ['3'] + ['2'] == "float32";
    case Float64 => TwoDigits("float", '6', '4'); assert "float" + ['6'] + ['4'] == "float64";
    case Complex64 => TwoDigits("complex", '6', '4'); assert "complex" + ['6'] + ['4'] == "complex64";
    case Complex128 =>
      TwoDigits("complex", '1', '2');
      OneMoreDigit("complex" + ['1'] + ['2'], '8');
      assert "complex" + ['1'] + ['2'] + ['8'] == "complex128";
  }

  lemma TwoDigits(stem: string, a: char, b: char)
    requires (stem == "" || !('0' <= stem[|stem| - 1] <= '9')) && '0' <= a <= '9' && '0' <= b <= '9'
    ensures Number(stem + [a] + [b]) == 10 * (a as int - '0' as int) + (b as int - '0' as int)
  {
    OneDigit(stem, a);
    OneMoreDigit(stem + [a], b);
  }

  // ----- dimensions travel as signed 64-bit numbers -----

  function ToSigned(n: Size): Int64 {
    if n < 0x8000_0000_0000_0000 then n else n - 0x1_0000_0000_0000_0000
  }

  function ToUnsigned(i: Int64): Size {
    if i >= 0 then i else i + 0x1_0000_0000_0000_0000
  }

  // ----- encoding and decoding -----

  function EncodeTensor(t: Tensor): ProtoTensor {
    ProtoTensor(TypeCode(t.dtype), seq(t.rank, i requires 0 <= i < t.rank => ToSigned(t.dims[i])), t.data)
  }

  function PaddedDims(dims: seq<Int64>): (p: seq<Size>)
    requires |dims| <= 4
    ensures |p| == 4
  {
    seq(4, i requires 0 <= i < 4 => if i < |dims| then ToUnsigned(dims[i]) else 1)
  }

  /** None where the source would copy past the end of what the message holds. */
  function DecodeTensor(p: ProtoTensor): Option<Tensor> {
    if |p.dims| > 4 then None
    else
      var dtype, dims := TypeFromString(p.dtype), PaddedDims(p.dims);
      var size := NumElements(dims) * SizeOf(dtype);
      if |p.data| < size then None
      else Some(RawTensor.Tensor(dtype, |p.dims|, dims, p.data[..size]))
  }

  function Encode(v: Value): Proto {
    match v
    case NoneValue => ProtoNone
    case IntValue(i) => ProtoInt(i)
    case DoubleValue(bits) => ProtoDouble(bits)
    case StringValue(s) => ProtoString(s)
    case BoolValue(b) => ProtoBool(b)
    case DictValue(dict) => ProtoDict(map k | k in dict :: Encode(dict[k]))
    case ListValue(list) => ProtoList(seq(|list|, i requires 0 <= i < |list| => Encode(list[i])))
    case TensorValue(t) => ProtoTensorValue(EncodeTensor(t))
  }

  /** None where the source throws "Unknown value type." or a tensor cannot be read. */
  function Decode(p: Proto): Option<Value> {
    match p
    case Unset => None
    case ProtoNone => Some(NoneValue)
    case ProtoInt(i) => Some(IntValue(i))
    case ProtoDouble(bits) => Some(DoubleValue(bits))
    case ProtoString(s) => Some(StringValue(s))
    case ProtoBool(b) => Some(BoolValue(b))
    case ProtoDict(items) =>
      if forall k | k in items :: Decode(items[k]).Some?
      then Some(DictValue(map k | k in items :: Decode(items[k]).value)) else None
    case ProtoList(elements) =>
      if forall i | 0 <= i < |elements| :: Decode(elements[i]).Some?
      then Some(ListValue(seq(|elements|, i requires 0 <= i < |elements| => Decode(elements[i]).value))) else None
    case ProtoTensorValue(t) =>
      var d := DecodeTensor(t);
      if d.Some? then Some(TensorValue(d.value)) else None
  }

  /** A dimension travels as the signed number with the same 64 bits. */
  lemma SameBits(n: Size, i: Int64)
    ensures ToSigned(n) == n || (n >= 0x8000_0000_0000_0000 && ToSigned(n) == n - 0x1_0000_0000_0000_0000)
    ensures ToUnsigned(i) == i || (i < 0 && ToUnsigned(i) == i + 0x1_0000_0000_0000_0000)
  {
  }

  /** What a tensor message holds: the code of the element type, the dimensions up to the rank in order, and
      the bytes as they are. */
  lemma TensorMessage(t: Tensor)
    ensures var p := EncodeTensor(t);
            && TypeFromString(p.dtype) == t.dtype && |p.dims| == t.rank && p.data == t.data
            && forall i | 0 <= i < t.rank && t.dims[i] < 0x8000_0000_0000_0000 :: p.dims[i] == t.dims[i]
  {
    TypeCodeRoundTrip(t.dtype);
  }

  /** Scalars travel as they are, and containers element by element and key by key. */
  lemma MessageOf(v: Value)
    ensures match v
            case NoneValue => Encode(v) == ProtoNone
            case IntValue(i) => Encode(v) == ProtoInt(i)
            case DoubleValue(bits) => Encode(v) == ProtoDouble(bits)
            case StringValue(s) => Encode(v) == ProtoString(s)
            case BoolValue(b) => Encode(v) == ProtoBool(b)
            case ListValue(list) =>
              Encode(v).ProtoList? && |Encode(v).elements| == |list|
              && forall i | 0 <= i < |list| :: Encode(v).elements[i] == Encode(list[i])
            case DictValue(dict) =>
              Encode(v).ProtoDict? && Encode(v).items.Keys == dict.Keys
              && forall k | k in dict :: Encode(v).items[k] == Encode(dict[k])
            case TensorValue(t) => Encode(v) == ProtoTensorValue(EncodeTensor(t))
  {
  }

  /** What is read from a tensor message: its type, its dimensions and then ones, and the bytes it begins with. */
  lemma TensorRead(p: ProtoTensor)
    requires DecodeTensor(p).Some?
    ensures var t := DecodeTensor(p).value;
            && t.dtype == TypeFromString(p.dtype) && t.rank == |p.dims| <= 4 && |t.dims| == 4
            && (forall i | 0 <= i < t.rank :: p.dims[i] >= 0 ==> t.dims[i] == p.dims[i])
            && (forall i | t.rank <= i < 4 :: t.dims[i] == 1)
            && |t.data| <= |p.data| && t.data == p.data[..|t.data|]
  {
  }

  /** What is read from a message: scalars as they are, containers element by element and key by key. */
  lemma ValueOf(p: Proto)
    requires Decode(p).Some?
    ensures var v := Decode(p).value;
            match p
            case Unset => false
            case ProtoNone => v == NoneValue
            case ProtoInt(i) => v == IntValue(i)
            case ProtoDouble(bits) => v == DoubleValue(bits)
            case ProtoString(s) => v == StringValue(s)
            case ProtoBool(b) => v == BoolValue(b)
            case ProtoList(elements) =>
              v.ListValue? && |v.list| == |elements|
              && forall i | 0 <= i < |elements| :: Decode(elements[i]) == Some(v.list[i])
            case ProtoDict(items) =>
              v.DictValue? && v.dict.Keys == items.Keys
              && forall k | k in items :: Decode(items[k]) == Some(v.dict[k])
            case ProtoTensorValue(t) => v.TensorValue? && DecodeTensor(t) == Some(v.tensor)
  {
  }

  /** A tensor message can be read: at most four dimensions, and bytes for every element. */
  predicate TensorIsReadable(p: ProtoTensor) {
    |p.dims| <= 4 &&
    NumElements(PaddedDims(p.dims)) * SizeOf(TypeFromString(p.dtype)) <= |p.data|
  }

  /** Nothing in the message is unset, and its tensors can be read. */
  predicate IsReadable(p: Proto) {
    match p
    case Unset => false
    case ProtoDict(items) => forall k | k in items :: IsReadable(items[k])
    case ProtoList(elements) => forall i | 0 <= i < |elements| :: IsReadable(elements[i])
    case ProtoTensorValue(t) => TensorIsReadable(t)
    case _ => true
  }

  /** Reading a message fails exactly when something in it, at any depth, is unset or an unreadable tensor. */
  lemma {:induction false} ReadsExactly(p: Proto)
    ensures Decode(p).Some? <==> IsReadable(p)
  {
    match p
    case ProtoDict(items) => forall k | k in items ensures Decode(items[k]).Some? <==> IsReadable(items[k]) { ReadsExactly(items[k]); }
    case ProtoList(elements) =>
      forall i | 0 <= i < |elements| ensures Decode(elements[i]).Some? <==> IsReadable(elements[i]) { ReadsExactly(elements[i]); }
    case _ =>
  }

  // ----- round trips -----

  /** The stored dimensions beyond the rank are ones. */
  predicate IsPadded(t: Tensor) {
    forall i | t.rank <= i < 4 :: t.dims[i] == 1
  }

  predicate AllPadded(v: Value) {
    match v
    case DictValue(dict) => forall k | k in dict :: AllPadded(dict[k])
    case ListValue(list) => forall i | 0 <= i < |list| :: AllPadded(list[i])
    case TensorValue(t) => IsPadded(t)
    case _ => true
  }

  lemma TensorRoundTrip(t: Tensor)
    ensures DecodeTensor(EncodeTensor(t)) == Some(t) <==> IsPadded(t)
  {
    var p := EncodeTensor(t);
    TypeNamesRoundTrip(t.dtype);
    var dims := PaddedDims(p.dims);
    assert forall i | 0 <= i < t.rank :: dims[i] == t.dims[i];
    if IsPadded(t) {
      assert dims == t.dims;
      assert p.data[..|p.data|] == p.data;
    } else {
      var i :| t.rank <= i < 4 && t.dims[i] != 1;
      assert dims[i] == 1;
    }
  }

  /** Decoding undoes encoding, for lists and dictionaries nested to any depth, exactly for the values
      whose tensors are padded with ones. */
  lemma {:induction false} RoundTrip(v: Value)
    ensures Decode(Encode(v)) == Some(v) <==> AllPadded(v)
  {
    match v
    case DictValue(dict) =>
      var items := Encode(v).items;
      forall k | k in dict ensures Decode(items[k]) == Some(dict[k]) <==> AllPadded(dict[k]) { RoundTrip(dict[k]); }
      if AllPadded(v) {
        assert Decode(Encode(v)).value.dict == dict;
      } else {
        var k :| k in dict && !AllPadded(dict[k]);
        assert Decode(Encode(v)).Some? ==> Decode(Encode(v)).value.dict[k] == Decode(items[k]).value;
      }
    case ListValue(list) =>
      var elements := Encode(v).elements;
      forall i | 0 <= i < |list| ensures Decode(elements[i]) == Some(list[i]) <==> AllPadded(list[i]) { RoundTrip(list[i]); }
      if AllPadded(v) {
        assert Decode(Encode(v)).value.list == list;
      } else {
        var i :| 0 <= i < |list| && !AllPadded(list[i]);
        assert Decode(Encode(v)).Some? ==> Decode(Encode(v)).value.list[i] == Decode(elements[i]).value;
      }
    case TensorValue(t) => TensorRoundTrip(t);
    case NoneValue =>
    case IntValue(_) =>
    case DoubleValue(_) =>
    case StringValue(_) =>
    case BoolValue(_) =>
  }

  lemma {:induction false} DecodedIsPadded(p: Proto)
    requires Decode(p).Some?
    ensures AllPadded(Decode(p).value)
  {
    match p
    case ProtoDict(items) =>
      forall k | k in items ensures AllPadded(Decode(p).value.dict[k]) { DecodedIsPadded(items[k]); }
    case ProtoList(elements) =>
      forall i | 0 <= i < |elements| ensures AllPadded(Decode(p).value.list[i]) { DecodedIsPadded(elements[i]); }
    case _ =>
  }

  /** Whatever a message decodes to, re-encoding it gives a message with the same meaning, even when
      the original used another spelling of an element type or held surplus bytes. */
  lemma ReencodingKeepsMeaning(p: Proto)
    requires Decode(p).Some?
    ensures Decode(Encode(Decode(p).value)) == Decode(p)
  {
    DecodedIsPadded(p);
    RoundTrip(Decode(p).value);
  }

  /** Different padded values never share an encoding. */
  lemma EncodingIsInjective(v: Value, w: Value)
    requires AllPadded(v) && AllPadded(w) && Encode(v) == Encode(w)
    ensures v == w
  {
    RoundTrip(v);
    RoundTrip(w);
  }

  // ----- the code that builds messages and values piece by piece -----

  method TensorToProto(t: Tensor) returns (p: ProtoTensor)
    ensures p == EncodeTensor(t)
  {
    var dims: seq<Int64> := [];
    for i := 0 to t.rank
      invariant dims == EncodeTensor(t).dims[..i]
    {
      dims := dims + [ToSigned(t.dims[i])];
    }
    p := ProtoTensor(TypeCode(t.dtype), dims, t.data);
  }

  method TensorFromProto(p: ProtoTensor) returns (r: Option<Tensor>)
    ensures r == DecodeTensor(p)
  {
    if |p.dims| > 4 { return None; }
    var dims: seq<Size> := [];
    for i := 0 to |p.dims|
      invariant dims == PaddedDims(p.dims)[..i]
    {
      dims := dims + [ToUnsigned(p.dims[i])];
    }
    for i := |p.dims| to 4
      invariant dims == PaddedDims(p.dims)[..i]
    {
      dims := dims + [1];
    }
    assert dims == PaddedDims(p.dims);
    var dtype := TypeFromString(p.dtype);
    var size := NumElements(dims) * SizeOf(dtype);
    if |p.data| < size { return None; }
    r := Some(RawTensor.Tensor(dtype, |p.dims|, dims, p.data[..size]));
  }

  method ToProto(v: Value) returns (p: Proto)
    ensures p == Encode(v)
    decreases v, 1
  {
    match v
    case NoneValue => p := ProtoNone;
    case IntValue(i) => p := ProtoInt(i);
    case DoubleValue(bits) => p := ProtoDouble(bits);
    case StringValue(s) => p := ProtoString(s);
    case BoolValue(b) => p := ProtoBool(b);
    case TensorValue(t) =>
      var q := TensorToProto(t);
      p := ProtoTensorValue(q);
    case ListValue(_) =>
      var elements := ListToProto(v);
      p := ProtoList(elements);
    case DictValue(_) =>
      var items := DictToProto(v);
      p := ProtoDict(items);
  }

  method ListToProto(v: Value) returns (elements: seq<Proto>)
    requires v.ListValue?
    ensures ProtoList(elements) == Encode(v)
    decreases v, 0
  {
    elements := [];
    for i := 0 to |v.list|
      invariant elements == Encode(v).elements[..i]
    {
      var item := ToProto(v.list[i]);
      elements := elements + [item];
    }
  }

  method DictToProto(v: Value) returns (items: map<string, Proto>)
    requires v.DictValue?
    ensures ProtoDict(items) == Encode(v)
    decreases v, 0
  {
    var left := v.dict.Keys;
    items := map[];
    while left != {}
      invariant left <= v.dict.Keys && items.Keys == v.dict.Keys - left
      invariant forall k | k in items :: items[k] == Encode(v.dict[k])
      decreases |left|
    {
      var key :| key in left;
      var item := ToProto(v.dict[key]);
      items := items[key := item];
      left := left - {key};
    }
    assert items == Encode(v).items;
  }

  method FromProto(p: Proto) returns (r: Option<Value>)
    ensures r == Decode(p)
    decreases p, 1
  {
    match p
    case Unset => r := None;
    case ProtoNone => r := Some(NoneValue);
    case ProtoInt(i) => r := Some(IntValue(i));
    case ProtoDouble(bits) => r := Some(DoubleValue(bits));
    case ProtoString(s) => r := Some(StringValue(s));
    case ProtoBool(b) => r := Some(BoolValue(b));
    case ProtoTensorValue(t) =>
      var d := TensorFromProto(t);
      r := if d.Some? then Some(TensorValue(d.value)) else None;
    case ProtoList(_) => r := ListFromProto(p);
    case ProtoDict(_) => r := DictFromProto(p);
  }

  method ListFromProto(p: Proto) returns (r: Option<Value>)
    requires p.ProtoList?
    ensures r == Decode(p)
    decreases p, 0
  {
    var list: seq<Value> := [];
    for i := 0 to |p.elements|
      invariant |list| == i && forall j | 0 <= j < i :: Decode(p.elements[j]) == Some(list[j])
    {
      var item := FromProto(p.elements[i]);
      if item.None? { return None; }
      list := list + [item.value];
    }
    assert list == Decode(p).value.list;
    r := Some(ListValue(list));
  }

  method DictFromProto(p: Proto) returns (r: Option<Value>)
    requires p.ProtoDict?
    ensures r == Decode(p)
    decreases p, 0
  {
    var dict: map<string, Value>, left := map[], p.items.Keys;
    while left != {}
      invariant left <= p.items.Keys && dict.Keys == p.items.Keys - left
      invariant forall k | k in dict :: Decode(p.items[k]) == Some(dict[k])
      decreases |left|
    {
      var key :| key in left;
      var item := FromProto(p.items[key]);
      if item.None? { return None; }
      dict := dict[key := item.value];
      left := left - {key};
    }
    assert dict == Decode(p).value.dict;
    r := Some(DictValue(dict));
  }
}
