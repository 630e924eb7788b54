/**
 The INTEGER / ENUMERATED type: the value it holds, its optional enumeration
 and default, and the value-level encode and decode built on the content
 codec of IntegerCodec.
 */
module IntegerType {

  import opened Numeric
  import opened Octets
  import opened Results
  import opened Enumeration
  import opened IntegerCodec

  /** The Ruby objects an INTEGER may be handed: an Integer, a name (String or Symbol), nil, or anything else. */
  datatype Value = Int(i: int) | Name(name: string) | Nil | Other

  datatype Integer = Integer(value: Value, default: Value, enum: Option<Enum>)

  /** Ruby's `a || b` on values where only nil is false. */
  function Or(a: Value, b: Value): Value
  {
    if a.Nil? then b else a
  }

  /** A value the enumeration accepts as stored: nil, or one of its names. */
  predicate Named(e: Enum, v: Value)
  {
    v.Nil? || (v.Name? && HasName(e, v.name))
  }

  /** A value an INTEGER without enumeration holds: nil or an integer. */
  predicate Plain(v: Value)
  {
    v.Nil? || v.Int?
  }

  /** The state construction and assignment maintain. */
  predicate Valid(s: Integer)
  {
    match s.enum
    case None => Plain(s.value) && Plain(s.default)
    case Some(e) => Named(e, s.value) && Named(e, s.default)
  }

  /** Assignment `value=`: names need the enumeration, integers are canonicalised to names under one. */
  function SetValue(s: Integer, val: Value): (r: Result<Integer>)
    ensures r.Ok? ==> r.value.enum == s.enum && r.value.default == s.default
    ensures r.Ok? && s.enum.Some? ==> Named(s.enum.value, r.value.value)
    ensures r.Ok? && s.enum.None? ==> r.value.value == val
    ensures r.Ok? && s.enum.Some? && val.Int? ==>
              r.value.value.Name? && KeyOf(s.enum.value, val.i) == Some(r.value.value.name)
    ensures r.Ok? && !(s.enum.Some? && val.Int?) ==> r.value.value == val
    ensures r.Ok? && Valid(s) ==> Valid(r.value)
    ensures r.Ok? && val.Name? ==> ToIDefined(r.value) && Lookup(s.enum.value, val.name) == Some(ToI(r.value))
    ensures r.Err? <==> match val
                        case Name(n) => s.enum.None? || !HasName(s.enum.value, n)
                        case Int(i) => s.enum.Some? && !HasCode(s.enum.value, i)
                        case Nil => false
                        case Other => true
  {
    match val
    case Name(n) =>
      if s.enum.None? then Err(NoEnumeration)
      else if !HasName(s.enum.value, n) then Err(UnknownEnumValue(n))
      else Ok(s.(value := val))
    case Int(i) =>
      if s.enum.None? then Ok(s.(value := val))
      else
        (match KeyOf(s.enum.value, i)
         case Some(n) =>
           assert HasName(s.enum.value, n) by { KeyOfLookup(s.enum.value, i); }
           Ok(s.(value := Name(n)))
         case None => Err(ValueNotInEnumeration(i)))
    case Nil => Ok(s.(value := Nil))
    case Other => Err(UnsupportedValueType)
  }

  /** The Ruby `to_i` is only an Integer when, without enumeration, the chosen value is one. */
  predicate ToIDefined(s: Integer)
  {
    s.enum.None? ==> Plain(Or(s.value, s.default))
  }

  /** `to_i`: the value, else the default, else 0; names resolved through the enumeration. */
  function ToI(s: Integer): (r: int)
    requires ToIDefined(s)
    ensures s.value.Nil? && s.default.Nil? ==> r == 0
    ensures s.enum.None? && s.value.Int? ==> r == s.value.i
    ensures s.enum.None? && s.value.Nil? && s.default.Int? ==> r == s.default.i
    ensures s.enum.Some? && r != 0 ==> HasCode(s.enum.value, r)
    ensures s.enum.Some? && Or(s.value, s.default).Name? && HasName(s.enum.value, Or(s.value, s.default).name) ==>
              Lookup(s.enum.value, Or(s.value, s.default).name) == Some(r)
  {
    var chosen := Or(s.value, s.default);
    match s.enum
    case None => if chosen.Int? then chosen.i else 0
    case Some(e) =>
      if chosen.Name? then
        (match Lookup(e, chosen.name)
         case Some(c) =>
           assert HasCode(e, c) by {
             var i :| 0 <= i < |e| && e[i].0 == chosen.name;
           }
           c
         case None => 0)
      else 0
  }

  /** Ruby would call Integer#bit_length on a non-Integer here: a name must be a key of the enumeration. */
  predicate EncodeDefined(s: Integer)
  {
    s.value.Name? ==> s.enum.Some? && HasName(s.enum.value, s.value.name)
  }

  /**
   `value_to_der`: the content octets of the held integer, or of the code of
   the held name. The octets are those of the corrected, minimal encoder; they
   coincide with the encoder as written except where that one drops the sign
   octet of a negative number.
   */
  function ValueToDer(s: Integer): (r: Result<seq<byte>>)
    requires EncodeDefined(s)
    ensures r.Ok? <==> s.value.Int? || s.value.Name?
    ensures r.Err? ==> r.error == UnsupportedValueType
    ensures r.Ok? ==> |r.value| >= 1 && Minimal(r.value)
    ensures r.Ok? && ((s.enum.None? && s.value.Int?) || Valid(s)) ==>
              ToIDefined(s) && DerToIntValue(r.value) == ToI(s)
    ensures r.Ok? && ((s.enum.None? && s.value.Int?) || Valid(s)) && !SignLost(ToI(s)) ==>
              r.value == IntValueToDer(ToI(s))
    ensures r.Ok? && ((s.enum.None? && s.value.Int?) || Valid(s)) ==>
              ToIDefined(s) && r.value == EncodeMinimal(ToI(s))
  {
    match s.value
    case Name(n) =>
      var c := Lookup(s.enum.value, n).value;
      AsWrittenAgreesWithMinimal(c);
      Ok(EncodeMinimal(c))
    case Int(i) =>
      AsWrittenAgreesWithMinimal(i);
      Ok(EncodeMinimal(i))
    case Nil => Err(UnsupportedValueType)
    case Other => Err(UnsupportedValueType)
  }

  /**
   `value_to_der` exactly as written: the octets `int_value_to_der` gives for
   the held integer or the held name's code, sign loss included.
   */
  function ValueToDerAsWritten(s: Integer): (r: Result<seq<byte>>)
    requires EncodeDefined(s)
    ensures r.Ok? <==> s.value.Int? || s.value.Name?
    ensures r.Err? ==> r.error == UnsupportedValueType
    ensures r.Ok? ==> |r.value| >= 1
    ensures r.Ok? && ((s.enum.None? && s.value.Int?) || Valid(s)) ==>
              ToIDefined(s) && (DecodeContent(r.value) == ToI(s) <==> !SignLost(ToI(s)))
    ensures r.Ok? && ((s.enum.None? && s.value.Int?) || Valid(s)) ==>
              (r == ValueToDer(s) <==> !SignLost(ToI(s)))
    ensures r.Ok? && ((s.enum.None? && s.value.Int?) || Valid(s)) ==>
              ToIDefined(s) && r.value == IntValueToDer(ToI(s))
  {
    match s.value
    case Name(n) =>
      var c := Lookup(s.enum.value, n).value;
      RoundTrip(c);
      AsWrittenAgreesWithMinimal(c);
      Ok(IntValueToDer(c))
    case Int(i) =>
      RoundTrip(i);
      AsWrittenAgreesWithMinimal(i);
      Ok(IntValueToDer(i))
    case Nil => Err(UnsupportedValueType)
    case Other => Err(UnsupportedValueType)
  }

  /**
   `der_to_value`: decode the content octets, then replace the integer by its
   first name under an enumeration. Empty content decodes to 0, as in Ruby.
   */
  function DerToValue(s: Integer, der: seq<byte>): (r: Result<Integer>)
    ensures r.Ok? ==> r.value.enum == s.enum && r.value.default == s.default
    ensures r.Err? <==> s.enum.Some? && !HasCode(s.enum.value, DecodeContent(der))
    ensures r.Err? ==> r.error == ValueNotInEnumeration(DecodeContent(der))
    ensures r.Ok? && s.enum.None? ==> r.value.value == Int(DecodeContent(der))
    ensures r.Ok? && s.enum.Some? ==>
              r.value.value.Name? && KeyOf(s.enum.value, DecodeContent(der)) == Some(r.value.value.name)
    ensures r.Ok? ==> ToIDefined(r.value) && ToI(r.value) == DecodeContent(der)
    ensures r.Ok? && s.enum.Some? ==> Named(s.enum.value, r.value.value)
  {
    var v := DecodeContent(der);
    match s.enum
    case None => Ok(s.(value := Int(v)))
    case Some(e) =>
      match KeyOf(e, v)
      case Some(n) =>
        KeyOfLookup(e, v);
        Ok(s.(value := Name(n)))
      case None => Err(ValueNotInEnumeration(v))
  }

  /** `initialize`: with an enumeration the value goes through `value=`, and the default must resolve to an entry. */
  function New(value: Value, default: Value, enum: Option<Enum>): (r: Result<Integer>)
    ensures r.Ok? ==> r.value.enum == enum
    ensures enum.None? ==> r == Ok(Integer(value, default, None))
    ensures enum.Some? && r.Ok? ==> Valid(r.value)
    ensures enum.Some? && r.Ok? && default.Int? ==>
              r.value.default.Name? && Lookup(enum.value, r.value.default.name) == Some(default.i)
    ensures enum.Some? && r.Ok? && default.Int? ==> r.value.default == Name(KeyOf(enum.value, default.i).value)
    ensures enum.Some? && r.Ok? && default.Name? ==> r.value.default == default
    ensures enum.Some? && SetValue(Integer(value, default, enum), value).Err? ==> r.Err?
    ensures enum.Some? && r.Ok? ==> r.value.value == SetValue(Integer(value, default, enum), value).value.value
    ensures enum.Some? && default.Other? ==> r.Err?
    ensures enum.Some? ==>
              (r.Ok? <==> SetValue(Integer(value, default, enum), value).Ok?
                          && match default
                             case Name(n) => HasName(enum.value, n)
                             case Int(i) => HasCode(enum.value, i)
                             case Nil => true
                             case Other => false)
    ensures enum.Some? && r.Ok? && default.Nil? ==> r.value.default == Nil
  {
    match enum
    case None => Ok(Integer(value, default, None))
    case Some(e) =>
      var s :- SetValue(Integer(value, default, enum), value);
      match default
      case Name(n) => if HasName(e, n) then Ok(s) else Err(UnknownEnumDefault)
      case Int(i) =>
        if HasCode(e, i) then
          KeyOfLookup(e, i);
          Ok(s.(default := Name(KeyOf(e, i).value)))
        else Err(UnknownEnumDefault)
      case Nil => Ok(s)
      case Other => Err(UnsupportedDefaultType)
  }

  /** After assigning an integer, `to_i` gives it back, with or without enumeration. */
  lemma SetIntThenToI(s: Integer, i: int)
    requires Valid(s) && SetValue(s, Int(i)).Ok?
    ensures ToIDefined(SetValue(s, Int(i)).value)
    ensures ToI(SetValue(s, Int(i)).value) == i
  {
    var t := SetValue(s, Int(i)).value;
    if s.enum.Some? {
      KeyOfLookup(s.enum.value, i);
      assert Or(t.value, t.default) == t.value;
    }
  }

  /**
   Value-level round trip with the corrected encoder: encoding the held value
   and decoding it again reproduces the state; under an enumeration the codes
   must be distinct for the name to come back.
   */
  lemma ValueRoundTrip(s: Integer)
    requires Valid(s) && (s.value.Int? || s.value.Name?)
    requires s.enum.Some? ==> DistinctCodes(s.enum.value)
    ensures ValueToDer(s).Ok? && DerToValue(s, ValueToDer(s).value) == Ok(s)
  {
    var der := ValueToDer(s).value;
    assert DecodeContent(der) == ToI(s);
    if s.enum.Some? {
      LookupKeyOf(s.enum.value, s.value.name);
    }
  }

  /**
   Value-level round trip as written: it holds where the code keeps its sign
   octet, and under an enumeration needs distinct codes.
   */
  lemma AsWrittenValueRoundTrip(s: Integer)
    requires Valid(s) && (s.value.Int? || s.value.Name?)
    requires s.enum.Some? ==> DistinctCodes(s.enum.value)
    requires !SignLost(ToI(s))
    ensures ValueToDerAsWritten(s).Ok? && DerToValue(s, ValueToDerAsWritten(s).value) == Ok(s)
  {
    var der := ValueToDerAsWritten(s).value;
    assert DecodeContent(der) == ToI(s);
    if s.enum.Some? {
      LookupKeyOf(s.enum.value, s.value.name);
    }
  }

  /** As written, the value-level round trip fails: -129 comes back as 127. */
  lemma AsWrittenValueRoundTripFails()
    ensures ValueToDerAsWritten(Integer(Int(-129), Nil, None)) == Ok([0x7F])
    ensures DerToValue(Integer(Int(-129), Nil, None), [0x7F]) == Ok(Integer(Int(127), Nil, None))
  {
    SignLostExamples();
  }

  /** The corrected encoder keeps the sign octet of -129. */
  lemma ValueEncodeMinus129()
    ensures ValueToDer(Integer(Int(-129), Nil, None)) == Ok([0xFF, 0x7F])
  {
    NotCanonicalExamples();
  }

  /** A two-entry enumeration: an integer value becomes its name, and an unknown code is refused on decode. */
  lemma EnumExample()
    ensures New(Int(1), Nil, Some([("low", 0), ("high", 1)])) == Ok(Integer(Name("high"), Nil, Some([("low", 0), ("high", 1)])))
    ensures DerToValue(Integer(Nil, Nil, Some([("low", 0), ("high", 1)])), [0x02]) == Err(ValueNotInEnumeration(2))
    ensures New(Nil, Name("medium"), Some([("low", 0), ("high", 1)])) == Err(UnknownEnumDefault)
  {
    var e: Enum := [("low", 0), ("high", 1)];
    assert e[1] == ("high", 1);
    assert KeyOf(e, 1) == Some("high") by {
      assert e[0].1 != 1;
    }
    assert DecodeContent([0x02]) == 2 by {
      DecodeExamples();
    }
    assert !HasCode(e, 2) by {
      assert forall i :: 0 <= i < |e| ==> e[i].1 != 2;
    }
    assert !HasName(e, "medium") by {
      assert forall i :: 0 <= i < |e| ==> e[i].0 != "medium";
    }
  }
}
