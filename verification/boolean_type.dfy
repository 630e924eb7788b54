/**
 The BOOLEAN content octet (section 8.2 of ITU-T X.690): exactly one octet,
 0x00 for FALSE; DER writes TRUE as 0xFF (section 11.1), BER accepts any
 non-zero octet as TRUE.
 */
module BooleanType {

  import opened Octets
  import opened Results

  const FalseOctet: byte := 0x00
  const TrueOctet: byte := 0xFF

  /** `value_to_der`: one octet, 0xFF for a true value and 0x00 otherwise. */
  function ValueToDer(value: bool): (der: seq<byte>)
    ensures |der| == 1
    ensures der[0] != FalseOctet <==> value
    ensures der == [FalseOctet] || der == [TrueOctet]
  {
    [if value then TrueOctet else FalseOctet]
  }

  /** `der_to_value`: a single octet; 0x00 and 0xFF always decode, any other octet only under BER. */
  function DerToValue(der: seq<byte>, ber: bool): (r: Result<bool>)
    ensures |der| != 1 ==> r == Err(MalformedLength)
    ensures r.Ok? ==> |der| == 1 && (r.value <==> der[0] != FalseOctet)
    ensures !ber ==> (r.Ok? <==> der == [FalseOctet] || der == [TrueOctet])
    ensures ber ==> (r.Ok? <==> |der| == 1)
    ensures |der| == 1 && r.Err? ==> r.error == InvalidValue(der[0])
  {
    if |der| != 1 then Err(MalformedLength)
    else if der[0] == FalseOctet then Ok(false)
    else if der[0] == TrueOctet then Ok(true)
    else if !ber then Err(InvalidValue(der[0]))
    else Ok(true)
  }

  /** Decoding what was encoded gives the value back, in either mode. */
  lemma RoundTrip(value: bool, ber: bool)
    ensures DerToValue(ValueToDer(value), ber) == Ok(value)
  {
  }

  /** DER decoding accepts only the octet the encoder would have written. */
  lemma StrictCanonical(der: seq<byte>)
    requires DerToValue(der, false).Ok?
    ensures ValueToDer(DerToValue(der, false).value) == der
  {
  }

  /** BER decoding only adds answers: where DER decoding succeeds, BER agrees. */
  lemma BerExtendsStrict(der: seq<byte>)
    requires DerToValue(der, false).Ok?
    ensures DerToValue(der, true) == DerToValue(der, false)
  {
  }

  lemma Examples()
    ensures DerToValue([0x01], false) == Err(InvalidValue(0x01))
    ensures DerToValue([0x01], true) == Ok(true)
    ensures DerToValue([], true) == Err(MalformedLength)
    ensures DerToValue([0xFF, 0xFF], false) == Err(MalformedLength)
  {
  }
}
