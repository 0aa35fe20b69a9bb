/** JavaScript strings as the chat component sees them: sequences of UTF-16
    code units, with the two string operations it relies on, String.prototype.trim
    (for its blank-input guards) and String.fromCharCode (to rebuild text from
    decrypted numbers). */
module JsText {

  /** A UTF-16 code unit, the element of a JavaScript string. */
  type CodeUnit = x: int | 0 <= x < 0x1_0000

  type JsString = seq<CodeUnit>

  /** The code units String.prototype.trim removes: ECMAScript WhiteSpace
      (tab, vertical tab, form feed, space, no-break space, the byte order mark
      and every other Unicode "Zs" space) and LineTerminator (line feed,
      carriage return, line and paragraph separators). */
  predicate IsWhitespace(u: CodeUnit)
  {
    u == 0x09 || u == 0x0A || u == 0x0B || u == 0x0C || u == 0x0D || u == 0x20 ||
    u == 0xA0 || u == 0x1680 || (0x2000 <= u <= 0x200A) || u == 0x2028 || u == 0x2029 ||
    u == 0x202F || u == 0x205F || u == 0x3000 || u == 0xFEFF
  }

  /** Every code unit of s is whitespace (this includes the empty string). */
  predicate IsBlank(s: JsString)
  {
    forall i :: 0 <= i < |s| ==> IsWhitespace(s[i])
  }

  /** s without its leading whitespace. */
  function TrimStart(s: JsString): (r: JsString)
    ensures |r| <= |s| && r == s[|s| - |r|..]
    ensures r == [] || !IsWhitespace(r[0])
    ensures IsBlank(s[..|s| - |r|])
  {
    if s != [] && IsWhitespace(s[0]) then
      var r := TrimStart(s[1..]);
      assert s[1..][..|s| - 1 - |r|] == s[1..|s| - |r|];
      assert s[..|s| - |r|] == [s[0]] + s[1..|s| - |r|];
      r
    else s
  }

  /** s without its trailing whitespace. */
  function TrimEnd(s: JsString): (r: JsString)
    ensures |r| <= |s| && r == s[..|r|]
    ensures r == [] || !IsWhitespace(r[|r| - 1])
    ensures IsBlank(s[|r|..])
  {
    if s != [] && IsWhitespace(s[|s| - 1]) then
      var r := TrimEnd(s[..|s| - 1]);
      assert s[..|s| - 1][..|r|] == s[..|r|];
      assert s[|r|..] == s[..|s| - 1][|r|..] + [s[|s| - 1]];
      r
    else s
  }

  /** String.prototype.trim: s without leading and trailing whitespace. */
  function Trim(s: JsString): JsString
  {
    TrimEnd(TrimStart(s))
  }

  /** The guards `x.trim()` of the component test truthiness: trimming leaves
      nothing exactly when every code unit is whitespace. */
  lemma TrimEmptyIffBlank(s: JsString)
    ensures Trim(s) == [] <==> IsBlank(s)
  {
    var t := TrimStart(s);
    if Trim(s) == [] {
      assert t == [] by { assert t[0..] == t; }
      assert s[..|s|] == s;
    }
  }

  /** `x.trim()` used as a condition: the trimmed string is truthy, that is
      not empty, exactly when x holds a code unit that is not whitespace. */
  method TrimIsTruthy(s: JsString) returns (truthy: bool)
    ensures truthy <==> !IsBlank(s)
  {
    TrimEmptyIffBlank(s);
    truthy := Trim(s) != [];
  }

  /** Trimming keeps a contiguous, possibly empty, slice of s whose ends are not
      whitespace, and drops only whitespace around it. */
  lemma TrimSlice(s: JsString) returns (i: nat, j: nat)
    ensures i <= j <= |s| && Trim(s) == s[i..j]
    ensures IsBlank(s[..i]) && IsBlank(s[j..])
    ensures i < j ==> !IsWhitespace(s[i]) && !IsWhitespace(s[j - 1])
  {
    var t := TrimStart(s);
    var r := TrimEnd(t);
    i := |s| - |t|;
    j := i + |r|;
    SliceOfSuffix(s, t, r, i, j);
  }

  /** A prefix r of the suffix t = s[i..] is the slice s[i..i + |r|]. */
  lemma SliceOfSuffix(s: JsString, t: JsString, r: JsString, i: nat, j: nat)
    requires i + |t| == |s| && t == s[i..] && |r| <= |t| && r == t[..|r|] && j == i + |r|
    ensures j <= |s| && r == s[i..j] && t[|r|..] == s[j..]
    ensures i < j ==> r[0] == s[i] && r[|r| - 1] == s[j - 1]
  {
  }

  /** The code units of a string literal written in ASCII. */
  function Ascii(s: string): (r: JsString)
    requires forall i :: 0 <= i < |s| ==> s[i] as int < 0x80
    ensures |r| == |s| && forall i :: 0 <= i < |s| ==> r[i] == s[i] as int
  {
    seq(|s|, i requires 0 <= i < |s| => s[i] as int)
  }

  /** String.fromCharCode: the number is converted with ToUint16, that is
      reduced modulo 2^16. */
  function FromCharCode(x: nat): (u: CodeUnit)
    ensures x < 0x1_0000 ==> u == x
  {
    x % 0x1_0000
  }
}
