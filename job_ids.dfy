/** Job ids travel as text and are parsed as a 32-bit integer, the way `int.Parse` with the
    invariant culture reads them: optional white space, an optional sign, decimal digits,
    optional white space, then any run of NUL characters; a value outside the 32-bit range
    is an error. */
module JobIds {
  import opened Base

  predicate IsWhite(c: char) { c == ' ' || '\t' <= c <= '\r' }

  predicate IsDigit(c: char) { '0' <= c <= '9' }

  predicate AllDigits(s: string) { forall k :: 0 <= k < |s| ==> IsDigit(s[k]) }

  function TrimStart(s: string): (r: string)
    ensures |r| <= |s| && r == s[|s| - |r|..]
    ensures r != [] ==> !IsWhite(r[0])
  {
    if s != [] && IsWhite(s[0]) then TrimStart(s[1..]) else s
  }

  function TrimEnd(s: string): (r: string)
    ensures |r| <= |s| && r == s[..|r|]
    ensures r != [] ==> !IsWhite(r[|r| - 1])
  {
    if s != [] && IsWhite(s[|s| - 1]) then TrimEnd(s[..|s| - 1]) else s
  }

  /** Drops the trailing run of NUL characters, which `int.Parse` accepts after the number
      and its trailing white space. */
  function TrimNuls(s: string): (r: string)
    ensures |r| <= |s| && r == s[..|r|]
    ensures r != [] ==> r[|r| - 1] != '\0'
    ensures forall k :: |r| <= k < |s| ==> s[k] == '\0'
  {
    if s != [] && s[|s| - 1] == '\0' then TrimNuls(s[..|s| - 1]) else s
  }

  /** The value of a run of decimal digits, most significant first. */
  function DigitsValue(s: string): nat
    requires AllDigits(s)
  {
    if s == [] then 0 else DigitsValue(s[..|s| - 1]) * 10 + (s[|s| - 1] as int - '0' as int)
  }

  /** `int.Parse(s)`; None where it throws a format or overflow exception. */
  function ParseInt32(s: string): (r: Option<int32>)
    ensures r.Some? ==> exists k :: 0 <= k < |s| && IsDigit(s[k])
  {
    var u := TrimStart(s);
    var t := TrimEnd(TrimNuls(u));
    assert forall j :: 0 <= j < |t| ==> t[j] == s[|s| - |u| + j];
    if t != [] && (t[0] == '-' || t[0] == '+') then ParseDigits(t[0] == '-', t[1..])
    else ParseDigits(false, t)
  }

  /** The digits after the sign: at least one, nothing else, and within 32 bits. */
  function ParseDigits(negative: bool, digits: string): Option<int32> {
    if digits == [] || !AllDigits(digits) then None
    else
      var magnitude: int := DigitsValue(digits);
      var v := if negative then -magnitude else magnitude;
      if InInt32Range(v) then Some(v as int32) else None
  }

  function Digit(d: nat): (c: char)
    requires d < 10
    ensures IsDigit(c) && c as int - '0' as int == d
  {
    ('0' as int + d) as char
  }

  /** A natural number in decimal, without leading zeros. */
  function FormatNat(n: nat): (s: string)
    ensures s != [] && AllDigits(s)
  {
    if n < 10 then [Digit(n)] else FormatNat(n / 10) + [Digit(n % 10)]
  }

  /** `n.ToString()` with the invariant culture: a minus sign for a negative value. */
  function FormatInt(n: int): (s: string)
    ensures s != [] && !IsWhite(s[0]) && !IsWhite(s[|s| - 1])
  {
    if n < 0 then "-" + FormatNat(-n) else FormatNat(n)
  }

  lemma {:induction false} DigitsValueOfFormat(n: nat)
    ensures DigitsValue(FormatNat(n)) == n
  {
    if n >= 10 {
      var s := FormatNat(n);
      assert s[..|s| - 1] == FormatNat(n / 10);
      DigitsValueOfFormat(n / 10);
    }
  }

  /** Decimal text reads back as the number it spells when that number fits in 32 bits,
      and is an overflow error otherwise. */
  lemma ParseFormatRoundTrip(n: int)
    ensures ParseInt32(FormatInt(n)) == if InInt32Range(n) then Some(n as int32) else None
  {
    var s := FormatInt(n);
    assert TrimStart(s) == s;
    assert IsDigit(s[|s| - 1]) && TrimNuls(s) == s;
    assert TrimEnd(s) == s;
    if n < 0 {
      var digits := FormatNat(-n);
      assert s == "-" + digits && s[0] == '-' && s[1..] == digits;
      DigitsValueOfFormat(-n);
      assert ParseInt32(s) == ParseDigits(true, digits);
    } else {
      var digits := FormatNat(n);
      assert s == digits && s[0] != '-' && s[0] != '+';
      DigitsValueOfFormat(n);
      assert ParseInt32(s) == ParseDigits(false, digits);
    }
  }

  /** Text holding a character that is neither white space, a sign nor a digit is
      rejected, unless it is a NUL of the trailing run. */
  lemma RejectsForeignCharacter(s: string, k: nat)
    requires k < |s| && !IsDigit(s[k]) && !IsWhite(s[k]) && s[k] != '-' && s[k] != '+'
    requires s[k] != '\0' || exists j :: k < j < |s| && s[j] != '\0'
    ensures ParseInt32(s) == None
  {
    var u := TrimStart(s);
    TrimStartKeeps(s, k);
    var d := |s| - |u|;
    NulRunKeeps(s, u, k, d);
    var v := TrimNuls(u);
    TrimEndKeeps(v, k - d);
    var t := TrimEnd(v);
    assert t[k - d] == s[k];
    RejectsForeignAfterTrim(t, k - d);
  }

  /** After the start is trimmed, dropping the NUL run keeps position k unless k lies in
      that run. */
  lemma NulRunKeeps(s: string, u: string, k: nat, d: nat)
    requires d <= k < |s| && u == s[d..]
    requires s[k] != '\0' || exists j :: k < j < |s| && s[j] != '\0'
    ensures |TrimNuls(u)| > k - d && TrimNuls(u)[k - d] == s[k]
  {
    assert u[k - d] == s[k];
    if s[k] == '\0' {
      var j :| k < j < |s| && s[j] != '\0';
      assert u[j - d] == s[j];
      TrimNulsKeeps(u, k - d, j - d);
    } else {
      TrimNulsKeeps(u, k - d, k - d);
    }
  }

  /** Dropping the NUL run keeps every position at or before a character that is not NUL. */
  lemma TrimNulsKeeps(s: string, k: nat, j: nat)
    requires k <= j < |s| && s[j] != '\0'
    ensures |TrimNuls(s)| > j
  {
  }

  /** Trimmed text with a foreign character after the sign position does not parse. */
  lemma RejectsForeignAfterTrim(t: string, j: nat)
    requires j < |t| && !IsDigit(t[j]) && t[j] != '-' && t[j] != '+'
    ensures (if t != [] && (t[0] == '-' || t[0] == '+') then ParseDigits(t[0] == '-', t[1..])
             else ParseDigits(false, t)) == None
  {
    if t[0] == '-' || t[0] == '+' {
      assert j > 0 && t[1..][j - 1] == t[j];
    }
  }

  /** A run of NUL characters after the text changes nothing: `"7\0"` reads as 7. */
  lemma AcceptsTrailingNuls(s: string, z: string)
    requires forall k :: 0 <= k < |z| ==> z[k] == '\0'
    ensures ParseInt32(s + z) == ParseInt32(s)
  {
    TrimStartAppend(s, z);
    TrimNulsAppend(TrimStart(s), z);
  }

  lemma {:induction false} TrimStartAppend(s: string, z: string)
    requires z == [] || !IsWhite(z[0])
    ensures TrimStart(s + z) == TrimStart(s) + z
    decreases |s|
  {
    if s == [] {
      assert s + z == z;
    } else {
      assert (s + z)[0] == s[0] && (s + z)[1..] == s[1..] + z;
      if IsWhite(s[0]) {
        TrimStartAppend(s[1..], z);
      }
    }
  }

  lemma {:induction false} TrimNulsAppend(s: string, z: string)
    requires forall k :: 0 <= k < |z| ==> z[k] == '\0'
    ensures TrimNuls(s + z) == TrimNuls(s)
    decreases |z|
  {
    if z == [] {
      assert s + z == s;
    } else {
      var z' := z[..|z| - 1];
      assert (s + z)[..|s + z| - 1] == s + z';
      TrimNulsAppend(s, z');
    }
  }

  /** Trimming the start never removes a non-white character. */
  lemma {:induction false} TrimStartKeeps(s: string, k: nat)
    requires k < |s| && !IsWhite(s[k])
    ensures |s| - |TrimStart(s)| <= k
    decreases |s|
  {
    if s != [] && IsWhite(s[0]) {
      assert k > 0 && s[1..][k - 1] == s[k];
      TrimStartKeeps(s[1..], k - 1);
    }
  }

  /** Trimming the end never removes a non-white character. */
  lemma {:induction false} TrimEndKeeps(s: string, k: nat)
    requires k < |s| && !IsWhite(s[k])
    ensures |TrimEnd(s)| > k
    decreases |s|
  {
    if s != [] && IsWhite(s[|s| - 1]) {
      TrimEndKeeps(s[..|s| - 1], k);
    }
  }

  /** `Convert.ToInt32(jobId, CultureInfo.InvariantCulture)`: a null string converts to 0,
      any other string is parsed. */
  function ConvertToInt32(jobId: Option<string>): (r: Option<int32>)
    ensures jobId.None? ==> r == Some(0)
    ensures jobId.Some? ==> r == ParseInt32(jobId.value)
  {
    match jobId
    case None => Some(0)
    case Some(text) => ParseInt32(text)
  }
}
