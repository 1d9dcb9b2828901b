/**
 * The few Python string built-ins the scraper relies on: truthiness of an
 * optional string, `s or default`, `s.split()[0]` and `sep.join(parts)`.
 */
module PyStr {
  import opened Wrappers

  /** `str.isspace()` on one character: the separators `str.split()` and `str.strip()` use. */
  predicate IsSpace(c: char)
  {
    || ('\t' <= c <= '\r')
    || ('\U{1C}' <= c <= '\U{20}')
    || c == '\U{85}' || c == '\U{A0}' || c == '\U{1680}'
    || ('\U{2000}' <= c <= '\U{200A}')
    || c == '\U{2028}' || c == '\U{2029}' || c == '\U{202F}' || c == '\U{205F}' || c == '\U{3000}'
  }

  ghost predicate AllSpace(s: string)
  {
    forall k :: 0 <= k < |s| ==> IsSpace(s[k])
  }

  ghost predicate NoSpace(s: string)
  {
    forall k :: 0 <= k < |s| ==> !IsSpace(s[k])
  }

  /** What `get_text(strip=True)` produces: no leading and no trailing whitespace. */
  predicate Stripped(s: string)
  {
    s == [] || (!IsSpace(s[0]) && !IsSpace(s[|s| - 1]))
  }

  /** A Python value of type `str | None` is truthy when it is a non-empty string. */
  predicate Truthy(v: Option<string>)
  {
    v.Some? && v.value != ""
  }

  /** Python's `v or default`. */
  function OrElse(v: Option<string>, default: string): (r: string)
    ensures r != "" <==> Truthy(v) || default != ""
  {
    if Truthy(v) then v.value else default
  }

  /**
   * `t` is the first token `s.split()` yields: a non-empty run of
   * non-whitespace characters, preceded only by whitespace and followed by
   * whitespace or the end of `s`.
   */
  ghost predicate IsFirstToken(s: string, t: string)
  {
    exists k :: 0 <= k <= |s| - |t| && t != [] && NoSpace(t)
      && AllSpace(s[..k]) && s[k..k + |t|] == t
      && (k + |t| == |s| || IsSpace(s[k + |t|]))
  }

  /** Drops the leading whitespace of `s`. */
  function SkipSpace(s: string): (r: string)
    ensures |r| <= |s| && r == s[|s| - |r|..]
    ensures AllSpace(s[..|s| - |r|])
    ensures r == [] || !IsSpace(r[0])
  {
    if s == [] || !IsSpace(s[0]) then s
    else
      var r := SkipSpace(s[1..]);
      assert s[..|s| - |r|] == [s[0]] + s[1..][..|s[1..]| - |r|];
      r
  }

  /** The longest prefix of `s` without whitespace. */
  function TakeToken(s: string): (t: string)
    ensures |t| <= |s| && t == s[..|t|]
    ensures NoSpace(t)
    ensures |t| == |s| || IsSpace(s[|t|])
  {
    if s == [] || IsSpace(s[0]) then []
    else [s[0]] + TakeToken(s[1..])
  }

  /**
   * `s.split()[0]`: the first whitespace-delimited token, or None where
   * Python raises IndexError because `s` holds nothing but whitespace.
   */
  function FirstToken(s: string): Option<string>
  {
    var t := TakeToken(SkipSpace(s));
    if t == [] then None else Some(t)
  }

  /** `FirstToken` fails exactly on whitespace-only text, and otherwise finds the first token. */
  lemma FirstTokenSpec(s: string)
    ensures FirstToken(s).None? <==> AllSpace(s)
    ensures FirstToken(s).Some? ==> IsFirstToken(s, FirstToken(s).value)
  {
  }

  /** `"Jane Doe".split()[0]` is `"Jane"`. */
  lemma FirstTokenOfTwoWords()
    ensures FirstToken("Jane Doe") == Some("Jane")
  {
    assert TakeToken("Jane Doe") == "Jane" by {
      assert IsSpace(' ') && !IsSpace('J') && !IsSpace('a') && !IsSpace('n') && !IsSpace('e');
      assert "Jane Doe"[1..] == "ane Doe" && "ane Doe"[1..] == "ne Doe";
      assert "ne Doe"[1..] == "e Doe" && "e Doe"[1..] == " Doe";
    }
  }

  /** `sep.join(parts)`. */
  function Join(sep: string, parts: seq<string>): string
  {
    if parts == [] then ""
    else if |parts| == 1 then parts[0]
    else parts[0] + sep + Join(sep, parts[1..])
  }

  /** A join with a non-empty separator is empty exactly when there is nothing, or one empty part, to join. */
  lemma JoinEmptyIff(sep: string, parts: seq<string>)
    requires sep != ""
    ensures Join(sep, parts) == "" <==> parts == [] || parts == [""]
  {
  }

  /** Appending a part appends the separator and the part: the parts keep their order. */
  lemma {:induction false} JoinSnoc(sep: string, parts: seq<string>, p: string)
    requires parts != []
    ensures Join(sep, parts + [p]) == Join(sep, parts) + sep + p
  {
    if |parts| == 1 {
      assert parts + [p] == [parts[0], p];
    } else {
      assert (parts + [p])[1..] == parts[1..] + [p];
      JoinSnoc(sep, parts[1..], p);
    }
  }
}
