/** The string helpers lib.rs relies on: `str::trim`, the first line of a
    text, `Path::extension` and ASCII lower-casing. */
module Text {
  import opened Common

  /** The Unicode White_Space property, which is what Rust's `str::trim`
      strips from both ends. */
  predicate IsWhitespace(c: char) {
    var n := c as int;
    || (0x09 <= n <= 0x0D) || n == 0x20 || n == 0x85 || n == 0xA0
    || n == 0x1680 || (0x2000 <= n <= 0x200A) || n == 0x2028 || n == 0x2029
    || n == 0x202F || n == 0x205F || n == 0x3000
  }

  ghost predicate AllWhitespace(s: string) {
    forall k :: 0 <= k < |s| ==> IsWhitespace(s[k])
  }

  /** `s` without its leading white space: a suffix of `s` preceded only by
      white space and not starting with any. */
  function TrimStart(s: string): (r: string)
    ensures |r| <= |s| && r == s[|s| - |r|..]
    ensures forall k :: 0 <= k < |s| - |r| ==> IsWhitespace(s[k])
    ensures r == [] || !IsWhitespace(r[0])
  {
    if |s| > 0 && IsWhitespace(s[0]) then TrimStart(s[1..]) else s
  }

  /** `s` without its trailing white space: a prefix of `s` followed only by
      white space and not ending with any. */
  function TrimEnd(s: string): (r: string)
    ensures |r| <= |s| && r == s[..|r|]
    ensures forall k :: |r| <= k < |s| ==> IsWhitespace(s[k])
    ensures r == [] || !IsWhitespace(r[|r| - 1])
  {
    if |s| > 0 && IsWhitespace(s[|s| - 1]) then TrimEnd(s[..|s| - 1]) else s
  }

  /** Rust's `str::trim`: the slice `s[a..a+|r|]` such that everything
      outside it is white space and it neither starts nor ends with any. */
  function Trim(s: string): (r: string)
    ensures var a := |s| - |TrimStart(s)|;
      && a + |r| <= |s|
      && r == s[a..a + |r|]
      && (forall k :: 0 <= k < a ==> IsWhitespace(s[k]))
      && (forall k :: a + |r| <= k < |s| ==> IsWhitespace(s[k]))
    ensures r == [] || (!IsWhitespace(r[0]) && !IsWhitespace(r[|r| - 1]))
  {
    TrimEnd(TrimStart(s))
  }

  /** A trimmed string is empty exactly when the original was all white
      space; this is the "empty id" test of the loaders. */
  lemma TrimEmptyIffBlank(s: string)
    ensures Trim(s) == [] <==> AllWhitespace(s)
  {
    var r := Trim(s);
    var a := |s| - |TrimStart(s)|;
    if r != [] {
      assert r[0] == s[a];
    }
  }

  /** Trimming twice is trimming once. */
  lemma TrimIdempotent(s: string)
    ensures Trim(Trim(s)) == Trim(s)
  {
    var r := Trim(s);
    assert TrimStart(r) == r;
    assert TrimEnd(r) == r;
  }

  /** The first line as `str::lines().next().unwrap_or("")` yields it: the
      text up to the first line feed, without a carriage return right
      before that line feed. */
  function FirstLine(content: string): (r: string)
    ensures '\n' !in r
    ensures r <= content
    ensures '\n' in content ==> |r| + 1 <= |content| && (content[|r|] == '\n' || content[|r| .. |r| + 2] == "\r\n")
    ensures '\n' !in content ==> r == content
    ensures '\n' in content ==>
      || (r + "\n" <= content && (r == [] || r[|r| - 1] != '\r'))
      || r + "\r\n" <= content
  {
    var line := UpToNewline(content);
    if |line| < |content| && |line| > 0 && line[|line| - 1] == '\r' then line[..|line| - 1] else line
  }

  /** The longest prefix of `s` without a line feed. */
  function UpToNewline(s: string): (r: string)
    ensures r <= s && '\n' !in r
    ensures |r| < |s| ==> s[|r|] == '\n'
  {
    if |s| == 0 || s[0] == '\n' then [] else [s[0]] + UpToNewline(s[1..])
  }

  /** The position of the last `c` in `s`, if any. */
  function LastIndexOf(s: string, c: char): (r: Option<nat>)
    ensures r.None? <==> c !in s
    ensures r.Some? ==> r.value < |s| && s[r.value] == c && c !in s[r.value + 1..]
  {
    if |s| == 0 then None
    else if s[|s| - 1] == c then Some(|s| - 1)
    else
      var r := LastIndexOf(s[..|s| - 1], c);
      assert s == s[..|s| - 1] + [s[|s| - 1]];
      r
  }

  /** Rust's `Path::extension` of a directory entry's file name: the text
      after the last dot, absent when there is no dot or when the only dot
      opens the name (".csv" has no extension, "a." has the empty one). */
  function Extension(name: string): (r: Option<string>)
    ensures r.Some? ==> |r.value| < |name| && name[|name| - |r.value| - 1] == '.' && '.' !in r.value && r.value == name[|name| - |r.value|..]
    ensures r.Some? <==> |name| > 0 && '.' in name[1..]
  {
    match LastIndexOf(name, '.')
    case None => None
    case Some(i) =>
      if i == 0 then
        assert '.' !in name[1..];
        None
      else
        assert name[0] == '.' ==> '.' in name[1..] by {
          if name[0] == '.' { assert name[1..][i - 1] == '.'; }
        }
        Some(name[i + 1..])
  }

  /** ASCII upper-case letters mapped to lower case, everything else kept. */
  function LowerAscii(s: string): (r: string)
    ensures |r| == |s|
    ensures forall k :: 0 <= k < |s| ==>
      r[k] == (if 'A' <= s[k] <= 'Z' then (s[k] as int + 32) as char else s[k])
  {
    if |s| == 0 then [] else
      var c := if 'A' <= s[0] <= 'Z' then (s[0] as int + 32) as char else s[0];
      [c] + LowerAscii(s[1..])
  }
}
