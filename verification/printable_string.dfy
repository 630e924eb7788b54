/**
 PrintableString (ITU-T X.680, clause 41, Table 10): the content octets are
 the characters themselves, and both encoding and decoding refuse a string
 with a character outside the PrintableString alphabet.
 */
module PrintableString {

  import opened Octets
  import opened Results

  /** The character class A-Z a-z 0-9, space and ' ( ) + , - . / : = ? */
  predicate IsPrintable(c: char)
  {
    ('A' <= c <= 'Z') || ('a' <= c <= 'z') || ('0' <= c <= '9')
    || c == ' ' || c == '\'' || c == '=' || c == '(' || c == ')' || c == '+'
    || c == ',' || c == '-' || c == '.' || c == '/' || c == ':' || c == '?'
  }

  predicate AllPrintable(s: string)
  {
    forall i :: 0 <= i < |s| ==> IsPrintable(s[i])
  }

  /** The characters from `first` onwards, `count` of them, in code order. */
  function Run(first: char, count: nat): (s: string)
    requires first as int + count <= 0xD800
    ensures |s| == count
    ensures forall i :: 0 <= i < count ==> s[i] as int == first as int + i
  {
    seq(count, i requires 0 <= i < count => (first as int + i) as char)
  }

  /** The alphabet of X.680 Table 10: capitals, small letters, digits, space and ten punctuation marks. */
  const Alphabet: string := Run('A', 26) + Run('a', 26) + Run('0', 10) + " '()+,-./:=?"

  /** The position of the leftmost character outside the alphabet, if any. */
  function FirstInvalid(s: string): (r: Option<nat>)
    ensures r.None? <==> AllPrintable(s)
    ensures r.Some? ==> r.value < |s| && !IsPrintable(s[r.value]) && AllPrintable(s[..r.value])
  {
    if |s| == 0 then None
    else if !IsPrintable(s[0]) then Some(0)
    else
      match FirstInvalid(s[1..])
      case None => None
      case Some(k) =>
        assert s[..k + 1] == [s[0]] + s[1..][..k];
        Some(k + 1)
  }

  /** `check_characters`: the string itself, or the leftmost offending character. */
  function CheckCharacters(s: string): (r: Result<string>)
    ensures r.Ok? <==> AllPrintable(s)
    ensures r.Ok? ==> r.value == s
    ensures r.Err? ==> exists i :: 0 <= i < |s| && r.error == InvalidCharacter(s[i])
                                  && !IsPrintable(s[i]) && AllPrintable(s[..i])
  {
    match FirstInvalid(s)
    case None => Ok(s)
    case Some(i) => Err(InvalidCharacter(s[i]))
  }

  /** Every character of the alphabet is ASCII, so it is one octet. */
  lemma PrintableIsAscii(c: char)
    requires IsPrintable(c)
    ensures c as int < 128
  {
  }

  /** The octets of a string of single-octet characters. */
  function CharOctets(s: string): (b: seq<byte>)
    requires forall i :: 0 <= i < |s| ==> s[i] as int < 256
    ensures |b| == |s|
    ensures forall i :: 0 <= i < |s| ==> b[i] == s[i] as int
  {
    seq(|s|, i requires 0 <= i < |s| => s[i] as int)
  }

  /** The string whose characters are the given octets (a binary string). */
  function Chars(b: seq<byte>): (s: string)
    ensures |s| == |b|
    ensures forall i :: 0 <= i < |b| ==> s[i] as int == b[i]
  {
    seq(|b|, i requires 0 <= i < |b| => b[i] as char)
  }

  /** `value_to_der`: the characters as octets, once they pass the check. */
  function ValueToDer(s: string): (r: Result<seq<byte>>)
    ensures r.Ok? <==> AllPrintable(s)
    ensures r.Ok? ==> |r.value| == |s| && forall i :: 0 <= i < |s| ==> r.value[i] == s[i] as int
    ensures r.Err? ==> r == Err(CheckCharacters(s).error)
  {
    var checked :- CheckCharacters(s);
    forall i | 0 <= i < |checked|
      ensures checked[i] as int < 256
    {
      PrintableIsAscii(checked[i]);
    }
    Ok(CharOctets(checked))
  }

  /** `der_to_value`: the octets as characters, refused by the same check in DER and BER alike. */
  function DerToValue(der: seq<byte>, ber: bool): (r: Result<string>)
    ensures r.Ok? <==> AllPrintable(Chars(der))
    ensures r.Ok? ==> |r.value| == |der| && forall i :: 0 <= i < |der| ==> r.value[i] as int == der[i]
    ensures r.Err? ==> r == Err(CheckCharacters(Chars(der)).error)
  {
    CheckCharacters(Chars(der))
  }

  /** The predicate and the listed alphabet agree on every character. */
  lemma AlphabetIff(c: char)
    ensures IsPrintable(c) <==> c in Alphabet
  {
    var upper, lower, digits := Run('A', 26), Run('a', 26), Run('0', 10);
    var marks := " '()+,-./:=?";
    assert Alphabet == upper + lower + digits + marks;
    assert c in upper <==> 'A' <= c <= 'Z' by {
      if 'A' <= c <= 'Z' {
        assert upper[c as int - 'A' as int] == c;
      }
    }
    assert c in lower <==> 'a' <= c <= 'z' by {
      if 'a' <= c <= 'z' {
        assert lower[c as int - 'a' as int] == c;
      }
    }
    assert c in digits <==> '0' <= c <= '9' by {
      if '0' <= c <= '9' {
        assert digits[c as int - '0' as int] == c;
      }
    }
    assert c in marks <==> c == ' ' || c == '\'' || c == '=' || c == '(' || c == ')' || c == '+'
                           || c == ',' || c == '-' || c == '.' || c == '/' || c == ':' || c == '?';
  }

  /** Encoding then decoding gives the string back. */
  lemma EncodeDecode(s: string, ber: bool)
    requires ValueToDer(s).Ok?
    ensures DerToValue(ValueToDer(s).value, ber) == Ok(s)
  {
    var der := ValueToDer(s).value;
    assert Chars(der) == s;
  }

  /** Decoding then encoding gives the octets back. */
  lemma DecodeEncode(der: seq<byte>, ber: bool)
    requires DerToValue(der, ber).Ok?
    ensures ValueToDer(DerToValue(der, ber).value) == Ok(der)
  {
    var s := DerToValue(der, ber).value;
    assert CharOctets(s) == der;
  }

  /** The BER flag does not relax the check. */
  lemma BerNotRelaxed(der: seq<byte>)
    ensures DerToValue(der, true) == DerToValue(der, false)
  {
  }

  /** The empty string is printable, and a concatenation is printable exactly when both parts are. */
  lemma Concatenation(a: string, b: string)
    ensures AllPrintable([])
    ensures AllPrintable(a + b) <==> AllPrintable(a) && AllPrintable(b)
  {
    if AllPrintable(a + b) {
      assert forall i :: 0 <= i < |a| ==> a[i] == (a + b)[i];
      assert forall i :: 0 <= i < |b| ==> b[i] == (a + b)[|a| + i];
    }
  }

  /** Characters outside the alphabet: control characters, common symbols and every non-ASCII character. */
  lemma Rejected(c: char)
    requires c as int >= 128
    ensures !IsPrintable('\n') && !IsPrintable('_') && !IsPrintable('*')
    ensures !IsPrintable('@') && !IsPrintable('&')
    ensures !IsPrintable(c)
  {
  }

  /** The leftmost offending character is the one reported. */
  lemma LeftmostReported()
    ensures ValueToDer("a*b_c") == Err(InvalidCharacter('*'))
  {
    assert FirstInvalid("a*b_c") == Some(1) by {
      assert "a*b_c"[1..] == "*b_c";
    }
  }

  /** A decoded octet above 0x7F is a character outside the alphabet. */
  lemma HighOctetRejected()
    ensures DerToValue([0x41, 0x80], false) == Err(InvalidCharacter(0x80 as char))
  {
    assert Chars([0x41, 0x80]) == "A\U{80}";
    assert FirstInvalid("A\U{80}") == Some(1) by {
      assert "A\U{80}"[1..] == "\U{80}";
    }
  }
}
