/** The command-line scan at the top of `Main`: `-d <n>` or `-days <n>` sets
    the length of the report window in days. */
module CommandLine {
  import opened Jira
  import opened Numerals

  const DefaultDays: int32 := 7

  predicate IsDaysFlag(arg: string) { arg == "-d" || arg == "-days" }

  /** The white space `int.TryParse` skips around a number: U+0009..U+000D and
      the space. */
  predicate IsWhite(c: char) { c == ' ' || '\t' <= c <= '\r' }

  /** `s` without its leading white space. */
  function TrimLeadingWhite(s: string): string {
    if s != [] && IsWhite(s[0]) then TrimLeadingWhite(s[1..]) else s
  }

  /** `s` without its trailing white space. */
  function TrimTrailingWhite(s: string): string {
    if s != [] && IsWhite(s[|s| - 1]) then TrimTrailingWhite(s[..|s| - 1]) else s
  }

  /** `s` without its trailing NUL characters. */
  function TrimTrailingNul(s: string): string {
    if s != [] && s[|s| - 1] == '\0' then TrimTrailingNul(s[..|s| - 1]) else s
  }

  /** All the leading white space goes, and nothing else: the result is a
      suffix of `s` that does not start with white space. */
  lemma {:induction false} TrimLeadingWhiteSpec(s: string)
    ensures var r := TrimLeadingWhite(s);
      |r| <= |s| && r == s[|s| - |r|..] &&
      (forall i :: 0 <= i < |s| - |r| ==> IsWhite(s[i])) &&
      (r == [] || !IsWhite(r[0]))
  {
    if s != [] && IsWhite(s[0]) {
      var t := s[1..];
      var r := TrimLeadingWhite(t);
      TrimLeadingWhiteSpec(t);
      assert t[|t| - |r|..] == s[|s| - |r|..];
      forall i | 1 <= i < |s| - |r| ensures IsWhite(s[i]) {
        assert s[i] == t[i - 1];
      }
    }
  }

  /** All the trailing white space goes, and nothing else: the result is a
      prefix of `s` that does not end in white space. */
  lemma {:induction false} TrimTrailingWhiteSpec(s: string)
    ensures var r := TrimTrailingWhite(s);
      |r| <= |s| && r == s[..|r|] &&
      (forall i :: |r| <= i < |s| ==> IsWhite(s[i])) &&
      (r == [] || !IsWhite(r[|r| - 1]))
  {
    if s != [] && IsWhite(s[|s| - 1]) {
      var t := s[..|s| - 1];
      var r := TrimTrailingWhite(t);
      TrimTrailingWhiteSpec(t);
      assert t[..|r|] == s[..|r|];
      forall i | |r| <= i < |s| - 1 ensures IsWhite(s[i]) {
        assert s[i] == t[i];
      }
    }
  }

  /** All the trailing NULs go, and nothing else: the result is a prefix of
      `s` that does not end in NUL. */
  lemma {:induction false} TrimTrailingNulSpec(s: string)
    ensures var r := TrimTrailingNul(s);
      |r| <= |s| && r == s[..|r|] &&
      (forall i :: |r| <= i < |s| ==> s[i] == '\0') &&
      (r == [] || r[|r| - 1] != '\0')
  {
    if s != [] && s[|s| - 1] == '\0' {
      var t := s[..|s| - 1];
      var r := TrimTrailingNul(t);
      TrimTrailingNulSpec(t);
      assert t[..|r|] == s[..|r|];
      forall i | |r| <= i < |s| - 1 ensures s[i] == '\0' {
        assert s[i] == t[i];
      }
    }
  }

  /** The text `int.TryParse` reads the sign and digits from. */
  function Trimmed(s: string): string {
    TrimTrailingWhite(TrimTrailingNul(TrimLeadingWhite(s)))
  }

  /** Trimming drops only white space and NULs, and adds nothing. */
  lemma TrimmedKeeps(s: string)
    ensures forall i :: 0 <= i < |s| && !IsWhite(s[i]) && s[i] != '\0' ==> s[i] in Trimmed(s)
    ensures forall c :: c in Trimmed(s) ==> c in s
  {
    var a := TrimLeadingWhite(s);
    var b := TrimTrailingNul(a);
    var t := TrimTrailingWhite(b);
    TrimLeadingWhiteSpec(s);
    TrimTrailingNulSpec(a);
    TrimTrailingWhiteSpec(b);
    var lo := |s| - |a|;
    forall i | 0 <= i < |s| && !IsWhite(s[i]) && s[i] != '\0'
      ensures s[i] in t
    {
      assert lo <= i;
      assert a[i - lo] == s[i];
      assert i - lo < |b| && b[i - lo] == s[i];
      assert i - lo < |t| && t[i - lo] == s[i];
    }
    forall c | c in t ensures c in s {
      var k :| 0 <= k < |t| && t[k] == c;
      assert b[k] == c && a[k] == c && s[lo + k] == c;
    }
  }

  /** A character that is not white space, NUL, a digit or a sign. */
  predicate IsForeign(c: char) {
    !IsWhite(c) && c != '\0' && !IsDigit(c) && c != '-' && c != '+'
  }

  /** `int.TryParse(s, out var d)` with the invariant culture's signs: optional
      white space, an optional `+` or `-`, one or more decimal digits, optional
      white space and then trailing NUL characters; the value must fit in an
      `int`. A number needs a digit, and any other character than those makes
      the parse fail (see `ParseInt32Shape`). */
  function ParseInt32(s: string): Option<int32> {
    var t := Trimmed(s);
    var negative := t != [] && t[0] == '-';
    var digits := if t != [] && (t[0] == '-' || t[0] == '+') then t[1..] else t;
    if digits == [] || !AllDigits(digits) then None
    else
      var v: int := if negative then 0 - Value(digits) else Value(digits);
      if -0x8000_0000 <= v <= 0x7FFF_FFFF then Some(v as int32) else None
  }

  /** A number needs a digit, and a character other than white space, NUL,
      a digit or a sign anywhere makes the parse fail. */
  lemma ParseInt32Shape(s: string)
    ensures ParseInt32(s).Some? ==> exists i :: 0 <= i < |s| && IsDigit(s[i])
    ensures (exists i :: 0 <= i < |s| && IsForeign(s[i])) ==> ParseInt32(s) == None
  {
    TrimmedKeeps(s);
    var t := Trimmed(s);
    var digits := if t != [] && (t[0] == '-' || t[0] == '+') then t[1..] else t;
    assert forall c :: c in t && c != '-' && c != '+' ==> c in digits;
    if digits != [] && AllDigits(digits) {
      assert digits[0] in t;
    }
  }

  /** How `int.ToString()` writes a number. */
  function Format(n: int32): string {
    if n < 0 then "-" + Digits(-(n as int)) else Digits(n as int)
  }

  /** Every `int` the program could be given is read back exactly. */
  lemma ParseFormat(n: int32)
    ensures ParseInt32(Format(n)) == Some(n)
  {
    var s := Format(n);
    var d := Digits(if n < 0 then -(n as int) else n as int);
    assert s[|s| - 1] == d[|d| - 1];
    assert TrimLeadingWhite(s) == s;
    assert TrimTrailingNul(s) == s;
    assert TrimTrailingWhite(s) == s;
    if n < 0 {
      assert s[1..] == d;
    }
    ValueOfDigits(if n < 0 then -(n as int) else n as int);
  }

  /** A flag is never a number, so the value token consumed after a flag
      could not have been a flag itself. */
  lemma FlagIsNotNumber(arg: string)
    requires IsDaysFlag(arg)
    ensures ParseInt32(arg) == None
  {
    assert IsForeign(arg[1]);
    ParseInt32Shape(arg);
  }

  /** Position `i` holds a flag followed by a number. */
  predicate ValidFlagAt(args: seq<string>, i: int) {
    0 <= i && i + 1 < |args| && IsDaysFlag(args[i]) && ParseInt32(args[i + 1]).Some?
  }

  function FlagValue(args: seq<string>, i: int): int32
    requires ValidFlagAt(args, i)
  {
    ParseInt32(args[i + 1]).value
  }

  /** The scan from position `i` on, with `days` the value so far: a flag
      followed by a number sets the value and consumes the number. */
  function ScanFrom(args: seq<string>, i: nat, days: int32): int32
    decreases |args| - i
  {
    if i >= |args| then days
    else if ValidFlagAt(args, i) then ScanFrom(args, i + 2, FlagValue(args, i))
    else ScanFrom(args, i + 1, days)
  }

  /** The window length `Main` settles on for its arguments. */
  function WindowDays(args: seq<string>): int32 {
    ScanFrom(args, 0, DefaultDays)
  }

  method ScanDays(args: seq<string>) returns (tage: int32)
    ensures tage == WindowDays(args)
  {
    tage := DefaultDays;
    var i := 0;
    while i < |args|
      invariant 0 <= i <= |args|
      invariant ScanFrom(args, i, tage) == WindowDays(args)
    {
      if (args[i] == "-d" || args[i] == "-days") && i + 1 < |args| && ParseInt32(args[i + 1]).Some? {
        tage := ParseInt32(args[i + 1]).value;
        i := i + 1;
      }
      i := i + 1;
    }
  }

  /** The number consumed after a flag is never itself a flag. */
  lemma ConsumedTokenIsNoFlag(args: seq<string>, i: int)
    requires ValidFlagAt(args, i)
    ensures !ValidFlagAt(args, i + 1)
  {
    if IsDaysFlag(args[i + 1]) {
      FlagIsNotNumber(args[i + 1]);
    }
  }

  /** From position `i` on, with no flag followed by a number, the value so
      far stays. */
  lemma {:induction false} ScanFromNoFlag(args: seq<string>, i: nat, days: int32)
    requires forall j :: i <= j ==> !ValidFlagAt(args, j)
    ensures ScanFrom(args, i, days) == days
    decreases |args| - i
  {
    if i < |args| {
      ScanFromNoFlag(args, i + 1, days);
    }
  }

  /** From position `i` on, the last flag followed by a number decides. */
  lemma {:induction false} ScanFromLastFlag(args: seq<string>, i: nat, days: int32, j: int)
    requires i <= j && ValidFlagAt(args, j)
    requires forall k :: j < k ==> !ValidFlagAt(args, k)
    ensures ScanFrom(args, i, days) == FlagValue(args, j)
    decreases |args| - i
  {
    if ValidFlagAt(args, i) {
      var v := FlagValue(args, i);
      assert ScanFrom(args, i, days) == ScanFrom(args, i + 2, v);
      ConsumedTokenIsNoFlag(args, i);
      if i == j {
        ScanFromNoFlag(args, i + 2, v);
      } else {
        ScanFromLastFlag(args, i + 2, v, j);
      }
    } else {
      assert ScanFrom(args, i, days) == ScanFrom(args, i + 1, days);
      ScanFromLastFlag(args, i + 1, days, j);
    }
  }

  /** Without a flag followed by a number the window stays at seven days. */
  lemma DefaultWithoutFlag(args: seq<string>)
    requires forall j :: !ValidFlagAt(args, j)
    ensures WindowDays(args) == 7
  {
    ScanFromNoFlag(args, 0, DefaultDays);
  }

  /** Otherwise the last flag followed by a number wins. */
  lemma LastFlagWins(args: seq<string>, j: int)
    requires ValidFlagAt(args, j)
    requires forall k :: j < k ==> !ValidFlagAt(args, k)
    ensures WindowDays(args) == FlagValue(args, j)
  {
    ScanFromLastFlag(args, 0, DefaultDays, j);
  }

  lemma {:induction false} ScanAppendNonNumber(args: seq<string>, arg: string, i: nat, days: int32)
    requires ParseInt32(arg) == None && i <= |args|
    ensures ScanFrom(args + [arg], i, days) == ScanFrom(args, i, days)
    decreases |args| - i
  {
    var a := args + [arg];
    if i < |args| {
      assert a[i] == args[i];
      if i + 1 < |args| {
        assert a[i + 1] == args[i + 1];
      }
      assert ValidFlagAt(a, i) == ValidFlagAt(args, i);
      if ValidFlagAt(args, i) {
        ScanAppendNonNumber(args, arg, i + 2, FlagValue(args, i));
      } else {
        ScanAppendNonNumber(args, arg, i + 1, days);
      }
    } else {
      assert !ValidFlagAt(a, i);
    }
  }

  /** A trailing token that is not a number changes nothing: neither a flag at
      the end of the arguments nor a flag followed by a non-number sets the
      window. */
  lemma AppendNonNumber(args: seq<string>, arg: string)
    requires ParseInt32(arg) == None
    ensures WindowDays(args + [arg]) == WindowDays(args)
  {
    ScanAppendNonNumber(args, arg, 0, DefaultDays);
  }

  /** A flag followed by a number at the end of the arguments decides. */
  lemma AppendFlagAndNumber(args: seq<string>, flag: string, n: int32)
    requires IsDaysFlag(flag)
    ensures WindowDays(args + [flag, Format(n)]) == n
  {
    var a := args + [flag, Format(n)];
    ParseFormat(n);
    assert ValidFlagAt(a, |args|);
    LastFlagWins(a, |args|);
  }
}
