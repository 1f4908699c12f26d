/** `System.Net.WebUtility.HtmlEncode`, the escaping every diff line goes
    through before it is embedded in the report, and a decoder for the
    references it writes. */
module Html {
  import opened Numerals

  /** The characters that would change the meaning of the surrounding markup. */
  predicate IsMarkup(c: char) { c == '<' || c == '>' || c == '"' || c == '\'' }

  /** Characters written as a numeric character reference: Latin-1 from U+00A0
      and everything outside the Basic Multilingual Plane (a surrogate pair in
      the UTF-16 source). */
  predicate IsNumericEscaped(c: char) {
    (160 <= c as int < 256) || c as int >= 0x1_0000
  }

  /** A code point a Dafny `char` can hold. */
  predicate IsScalar(n: nat) { n < 0xD800 || 0xE000 <= n < 0x11_0000 }

  function EncodeChar(c: char): (r: string)
    ensures |r| > 0 && (r[0] == '&' <==> c == '&' || IsMarkup(c) || IsNumericEscaped(c))
    ensures forall i :: 0 <= i < |r| ==> !IsMarkup(r[i])
  {
    if c == '<' then "&lt;"
    else if c == '>' then "&gt;"
    else if c == '"' then "&quot;"
    else if c == '\'' then "&#39;"
    else if c == '&' then "&amp;"
    else if IsNumericEscaped(c) then "&#" + Digits(c as int) + ";"
    else [c]
  }

  /** The escaped text: no markup character survives. */
  function Encode(s: string): (r: string)
    ensures forall i :: 0 <= i < |r| ==> !IsMarkup(r[i])
  {
    if s == [] then [] else EncodeChar(s[0]) + Encode(s[1..])
  }

  /** The character a reference starting at `s[0] == '&'` stands for, and how
      many characters it takes; an `&` that starts no known reference stands
      for itself. */
  function Reference(s: string): (r: (char, nat))
    requires s != [] && s[0] == '&'
    ensures 1 <= r.1 <= |s|
  {
    if |s| >= 4 && s[..4] == "&lt;" then ('<', 4)
    else if |s| >= 4 && s[..4] == "&gt;" then ('>', 4)
    else if |s| >= 5 && s[..5] == "&amp;" then ('&', 5)
    else if |s| >= 6 && s[..6] == "&quot;" then ('"', 6)
    else if |s| >= 2 && s[1] == '#' then NumericReference(s)
    else ('&', 1)
  }

  /** `&#` followed by decimal digits and `;`. */
  function NumericReference(s: string): (r: (char, nat))
    requires |s| >= 2
    ensures 1 <= r.1 <= |s|
  {
    var k := DigitRun(s[2..]);
    var digits := s[2..][..k];
    if 0 < k && 2 + k < |s| && s[2 + k] == ';' && IsScalar(Value(digits)) then
      (Value(digits) as char, 3 + k)
    else (s[0], 1)
  }

  /** Reads back the references `Encode` writes. */
  function Decode(s: string): (r: string)
    ensures |r| <= |s|
    ensures (forall i :: 0 <= i < |s| ==> s[i] != '&') ==> r == s
    decreases |s|
  {
    if s == [] then []
    else if s[0] != '&' then [s[0]] + Decode(s[1..])
    else
      var (c, n) := Reference(s);
      [c] + Decode(s[n..])
  }

  lemma NumericReferenceOf(c: char, rest: string)
    ensures NumericReference("&#" + Digits(c as int) + ";" + rest) == (c, 3 + |Digits(c as int)|)
  {
    var d := Digits(c as int);
    var s := "&#" + d + ";" + rest;
    assert s[2..] == d + ([';'] + rest);
    DigitRunOfNumeral(d, [';'] + rest);
    assert s[2..][..|d|] == d;
    ValueOfDigits(c as int);
  }

  lemma DecodeNumeric(c: char, rest: string)
    ensures Decode("&#" + Digits(c as int) + ";" + rest) == [c] + Decode(rest)
  {
    var d := Digits(c as int);
    var s := "&#" + d + ";" + rest;
    assert s[0] == '&' && s[1] == '#';
    assert s[..4] != "&lt;" && s[..4] != "&gt;";
    assert |s| >= 5 ==> s[..5] != "&amp;";
    assert |s| >= 6 ==> s[..6] != "&quot;";
    NumericReferenceOf(c, rest);
    assert s[3 + |d|..] == rest;
  }

  /** A named reference is read back as the character it names. */
  lemma DecodeNamed(name: string, c: char, rest: string)
    requires (name, c) in {("&lt;", '<'), ("&gt;", '>'), ("&amp;", '&'), ("&quot;", '"')}
    ensures Decode(name + rest) == [c] + Decode(rest)
  {
    var s := name + rest;
    assert s[..|name|] == name && s[|name|..] == rest;
    assert s[..4][1] == s[1] == name[1];
    if name == "&amp;" || name == "&quot;" {
      assert s[..4] != "&lt;" && s[..4] != "&gt;";
    }
    if name == "&quot;" {
      assert s[..5][1] == 'q';
      assert s[..5] != "&amp;";
    }
    assert Reference(s) == (c, |name|);
  }

  /** Decoding undoes the escaping of one character. */
  lemma DecodeEncodeChar(c: char, rest: string)
    ensures Decode(EncodeChar(c) + rest) == [c] + Decode(rest)
  {
    if c == '<' {
      DecodeNamed("&lt;", c, rest);
    } else if c == '>' {
      DecodeNamed("&gt;", c, rest);
    } else if c == '&' {
      DecodeNamed("&amp;", c, rest);
    } else if c == '"' {
      DecodeNamed("&quot;", c, rest);
    } else if c == '\'' {
      assert c as int == 39;
      assert Digits(39) == Digits(3) + ['9'] == "39";
      assert EncodeChar(c) == "&#" + Digits(c as int) + ";";
      DecodeNumeric(c, rest);
    } else if IsNumericEscaped(c) {
      DecodeNumeric(c, rest);
    } else {
      assert (EncodeChar(c) + rest)[1..] == rest;
    }
  }

  /** Escaping loses nothing: the original text can be read back. */
  lemma {:induction false} DecodeEncode(s: string)
    ensures Decode(Encode(s)) == s
  {
    if s != [] {
      DecodeEncodeChar(s[0], Encode(s[1..]));
      DecodeEncode(s[1..]);
    }
  }
}
