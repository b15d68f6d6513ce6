/** Normalisation of a user-supplied bearer token: surrounding whitespace is
    trimmed and a leading, case-insensitive "bearer " prefix is cut off. */
module BearerToken {

  /** The characters Python's `str.isspace` accepts, which `str.strip()` with no
      argument removes. */
  predicate IsSpace(c: char) {
    || c == ' '
    || ('\t' <= c <= '\r')
    || ('\U{1C}' <= c <= '\U{1F}')
    || c == '\U{85}' || c == '\U{A0}' || c == '\U{1680}'
    || ('\U{2000}' <= c <= '\U{200A}')
    || c == '\U{2028}' || c == '\U{2029}' || c == '\U{202F}' || c == '\U{205F}'
    || c == '\U{3000}'
  }

  /** Every character of `s[lo..hi]` is whitespace. */
  predicate SpaceBetween(s: string, lo: int, hi: int)
    requires 0 <= lo <= hi <= |s|
  {
    forall i :: lo <= i < hi ==> IsSpace(s[i])
  }

  /** Where `s.lstrip()` starts: the first non-space position at or after `i`. */
  function TextStart(s: string, i: nat): (j: nat)
    requires i <= |s|
    ensures i <= j <= |s| && SpaceBetween(s, i, j)
    ensures j < |s| ==> !IsSpace(s[j])
    decreases |s| - i
  {
    if i < |s| && IsSpace(s[i]) then TextStart(s, i + 1) else i
  }

  /** Where `s[lo..j].rstrip()` ends: the position after the last non-space
      character of `s[lo..j]`, or `lo`. */
  function TextEnd(s: string, lo: nat, j: nat): (k: nat)
    requires lo <= j <= |s|
    ensures lo <= k <= j && SpaceBetween(s, k, j)
    ensures k > lo ==> !IsSpace(s[k - 1])
  {
    if j > lo && IsSpace(s[j - 1]) then TextEnd(s, lo, j - 1) else j
  }

  /** `s.strip()`: leading whitespace removed, then trailing whitespace. */
  function Strip(s: string): (r: string)
    ensures |r| <= |s|
    ensures r != [] ==> !IsSpace(r[0]) && !IsSpace(r[|r| - 1])
  {
    var i := TextStart(s, 0);
    var j := TextEnd(s, i, |s|);
    s[i..j]
  }

  /** The trim is determined by its framing: whenever `s[i..j]` neither starts
      nor ends with whitespace and everything outside it is whitespace,
      `Strip(s)` is `s[i..j]`. */
  lemma {:induction false} StripIsTheFramedText(s: string, i: nat, j: nat)
    requires i <= j <= |s|
    requires SpaceBetween(s, 0, i) && SpaceBetween(s, j, |s|)
    requires i < j ==> !IsSpace(s[i]) && !IsSpace(s[j - 1])
    ensures Strip(s) == s[i..j]
  {
  }

  /** A string that neither starts nor ends with whitespace is its own trim. */
  lemma StripUnpadded(s: string)
    requires s != [] ==> !IsSpace(s[0]) && !IsSpace(s[|s| - 1])
    ensures Strip(s) == s
  {
    StripIsTheFramedText(s, 0, |s|);
  }

  /** Python's `str.lower()` on one character, as far as the prefix test can
      see it: ASCII capitals become small letters (see README). */
  function LowerChar(c: char): char {
    if 'A' <= c <= 'Z' then (c as int + 32) as char else c
  }

  const Prefix: string := "bearer "

  /** `s.lower().startswith("bearer ")`: lowering works character by character,
      so this compares the first seven characters, lowered, with the prefix. */
  predicate HasBearerPrefix(s: string) {
    |s| >= |Prefix| && forall i :: 0 <= i < |Prefix| ==> LowerChar(s[i]) == Prefix[i]
  }

  /** `s.split(sep, 1)`: one part when `sep` does not occur, otherwise the
      text before its first occurrence and the text after it. */
  function SplitOnce(s: string, sep: char): (parts: seq<string>)
    ensures |parts| == 1 || |parts| == 2
    ensures |parts| == 1 ==> parts[0] == s && sep !in s
    ensures |parts| == 2 ==> parts[0] + [sep] + parts[1] == s && sep !in parts[0]
  {
    if s == [] then [s]
    else if s[0] == sep then
      assert s == [] + [sep] + s[1..];
      ["", s[1..]]
    else
      var rest := SplitOnce(s[1..], sep);
      if |rest| == 1 then
        assert s == [s[0]] + s[1..];
        [s]
      else
        assert s == [s[0]] + rest[0] + [sep] + rest[1];
        [[s[0]] + rest[0], rest[1]]
  }

  /** `_strip_bearer_prefix`: the trimmed token without its "bearer " prefix. */
  function StripBearerPrefix(token: string): (r: string)
    ensures var trimmed := Strip(token);
            r == if HasBearerPrefix(trimmed) then trimmed[|Prefix|..] else trimmed
    ensures |r| <= |token|
  {
    var trimmed := Strip(token);
    if HasBearerPrefix(trimmed) then
      var parts := SplitOnce(trimmed, ' ');
      FirstSpaceAt6(trimmed, parts);
      parts[1]
    else
      trimmed
  }

  /** With the prefix present, the first space of the text is its seventh
      character, so splitting at the first space cuts exactly the prefix. */
  lemma FirstSpaceAt6(s: string, parts: seq<string>)
    requires HasBearerPrefix(s) && parts == SplitOnce(s, ' ')
    ensures |parts| == 2 && parts[1] == s[|Prefix|..]
  {
    assert LowerChar(s[6]) == ' ';
    assert s[6] == ' ';
    forall i | 0 <= i < 6 ensures s[i] != ' ' {
      assert LowerChar(s[i]) == Prefix[i];
    }
    var p0 := parts[0];
    assert s == p0 + [' '] + parts[1];
    assert s[|p0|] == ' ';
    assert forall k :: 0 <= k < |p0| ==> p0[k] == s[k];
    assert |p0| == 6;
    assert s[7..] == parts[1];
  }

  /** The result never ends with whitespace (the trim removed it and the
      prefix cut only shortens the front). */
  lemma NoTrailingSpace(token: string)
    ensures var r := StripBearerPrefix(token); r != [] ==> !IsSpace(r[|r| - 1])
  {
    var t := Strip(token);
    if HasBearerPrefix(t) && |t| > 7 {
      assert t[7..][|t| - 8] == t[|t| - 1];
    }
  }

  /** `w` spells "bearer" in some mix of upper and lower case. */
  predicate SpellsBearer(w: string) {
    |w| == 6 && forall i :: 0 <= i < 6 ==> LowerChar(w[i]) == Prefix[i]
  }

  /** A word spelling "bearer" in any case and surrounded by whitespace only
      ("Bearer ", "bearer   ") is returned as the bare word: the trim runs
      before the prefix test, so the prefix's space is gone when it is tested. */
  lemma BareBearerKept(lead: string, word: string, trail: string)
    requires SpaceBetween(lead, 0, |lead|) && SpaceBetween(trail, 0, |trail|)
    requires SpellsBearer(word)
    ensures StripBearerPrefix(lead + word + trail) == word
  {
    var s := lead + word + trail;
    var i := |lead|;
    assert LowerChar(word[0]) == 'b' && LowerChar(word[5]) == 'r';
    assert s[i] == word[0] && s[i + 5] == word[5];
    assert SpaceBetween(s, 0, i) by {
      forall k | 0 <= k < i ensures IsSpace(s[k]) { assert s[k] == lead[k]; }
    }
    assert SpaceBetween(s, i + 6, |s|) by {
      forall k | i + 6 <= k < |s| ensures IsSpace(s[k]) { assert s[k] == trail[k - i - 6]; }
    }
    StripIsTheFramedText(s, i, i + 6);
    assert s[i..i + 6] == word;
  }

  /** A prefixed token whose remainder ends in a non-space character keeps
      every character after the prefix's own space, further spaces included. */
  lemma PrefixRemoved(prefix: string, rest: string)
    requires |prefix| == 7 && HasBearerPrefix(prefix)
    requires rest != [] && !IsSpace(rest[|rest| - 1])
    ensures StripBearerPrefix(prefix + rest) == rest
  {
    var s := prefix + rest;
    assert LowerChar(prefix[0]) == 'b';
    assert s[0] == prefix[0] && s[|s| - 1] == rest[|rest| - 1];
    StripUnpadded(s);
    assert forall i :: 0 <= i < 7 ==> s[i] == prefix[i];
    assert s[7..] == rest;
  }

  /** Normalisation is not idempotent: of a doubled prefix each call removes
      one, so "Bearer Bearer x" becomes "Bearer x" and then "x". */
  lemma NotIdempotent(p: string, q: string, rest: string)
    requires |p| == 7 && HasBearerPrefix(p) && |q| == 7 && HasBearerPrefix(q)
    requires rest != [] && !IsSpace(rest[|rest| - 1])
    ensures StripBearerPrefix(p + q + rest) == q + rest
    ensures StripBearerPrefix(StripBearerPrefix(p + q + rest)) == rest
  {
    var once := q + rest;
    assert once[|once| - 1] == rest[|rest| - 1];
    assert p + q + rest == p + once;
    PrefixRemoved(p, once);
    PrefixRemoved(q, rest);
  }

  /** "Bearer " on its own comes back as "Bearer", not as the empty token. */
  lemma PrefixAloneKept()
    ensures StripBearerPrefix("Bearer ") == "Bearer"
  {
    BareBearerKept("", "Bearer", " ");
    assert "" + "Bearer" + " " == "Bearer ";
  }
}
