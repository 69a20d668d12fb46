/**
 * The character classes of Python's `re` module that the search engine relies on
 * (`\w`, `\s`, `\d`, case-insensitive comparison) and the `str` helpers it calls
 * (`strip`, `split(",")`, `"\n".join`).
 *
 * `\w` and `\d` are Python's classes restricted to ASCII, Latin-1 and the
 * Arabic block U+0600–U+06FF, which is what Arabic legal text is made of: within
 * those ranges they hold for exactly the characters Python's classes hold for,
 * and outside them for none. `\s` is exactly the set of characters for which
 * `str.isspace` holds, which is also what `str.strip()` removes.
 */
module Text {

  /** `\s`: Python's whitespace characters. */
  predicate IsSpace(c: char) {
    c == ' ' || ('\t' <= c <= '\r') || ('\U{1C}' <= c <= '\U{1F}') || c == '\U{85}' || c == '\U{A0}'
    || c == '\U{1680}' || ('\U{2000}' <= c <= '\U{200A}') || c == '\U{2028}' || c == '\U{2029}'
    || c == '\U{202F}' || c == '\U{205F}' || c == '\U{3000}'
  }

  /** `\d`: decimal digits — ASCII, Arabic-Indic (٠–٩) and extended Arabic-Indic (۰–۹). */
  predicate IsDigit(c: char) {
    ('0' <= c <= '9') || ('\U{0660}' <= c <= '\U{0669}') || ('\U{06F0}' <= c <= '\U{06F9}')
  }

  /**
   * `\w`: the underscore and the characters for which `str.isalnum` holds —
   * letters, digits and other numerals such as ² and ½. Arabic letters
   * (including the tatweel) are word characters; the combining diacritics
   * U+064B–U+0652 are not.
   */
  predicate IsWord(c: char) {
    IsDigit(c) || ('a' <= c <= 'z') || ('A' <= c <= 'Z') || c == '_'
    || c == '\U{AA}' || c == '\U{B2}' || c == '\U{B3}' || c == '\U{B5}' || c == '\U{B9}' || c == '\U{BA}'
    || ('\U{BC}' <= c <= '\U{BE}')
    || ('\U{C0}' <= c <= '\U{FF}' && c != '\U{D7}' && c != '\U{F7}')
    || ('\U{0620}' <= c <= '\U{064A}') || c == '\U{066E}' || c == '\U{066F}'
    || ('\U{0671}' <= c <= '\U{06D3}') || c == '\U{06D5}'
    || c == '\U{06E5}' || c == '\U{06E6}' || c == '\U{06EE}' || c == '\U{06EF}'
    || ('\U{06FA}' <= c <= '\U{06FC}') || c == '\U{06FF}'
  }

  lemma WordIsNotSpace(c: char)
    ensures IsWord(c) ==> !IsSpace(c)
  {
  }

  /** The upper-case letters of ASCII and Latin-1: A–Z and À–Þ except ×. */
  predicate IsUpper(c: char) {
    ('A' <= c <= 'Z') || ('\U{C0}' <= c <= '\U{DE}' && c != '\U{D7}')
  }

  /**
   * The case folding used by `re.IGNORECASE`, restricted to pairs of letters
   * that are both in ASCII or both in Latin-1: each upper-case letter is folded
   * to its lower-case partner, 32 code points further on.
   */
  function Lower(c: char): (d: char)
    ensures IsUpper(c) ==> d as int == c as int + 32 && !IsUpper(d)
    ensures !IsUpper(c) ==> d == c
  {
    if IsUpper(c) then (c as int + 32) as char else c
  }

  /** Two strings are equal when compared case-insensitively, character by character. */
  predicate SameIgnoringCase(a: string, b: string) {
    |a| == |b| && forall i :: 0 <= i < |a| ==> Lower(a[i]) == Lower(b[i])
  }

  /** The number of whitespace characters at the start of `s`. */
  function LeadingSpaces(s: string): (k: nat)
    ensures k <= |s|
    ensures k < |s| ==> !IsSpace(s[k])
  {
    if s != [] && IsSpace(s[0]) then 1 + LeadingSpaces(s[1..]) else 0
  }

  /** The characters counted by `LeadingSpaces` are whitespace. */
  lemma {:induction false} LeadingAreSpaces(s: string)
    ensures forall j :: 0 <= j < LeadingSpaces(s) ==> IsSpace(s[j])
  {
    if s != [] && IsSpace(s[0]) {
      LeadingAreSpaces(s[1..]);
      forall j | 0 < j < LeadingSpaces(s)
        ensures IsSpace(s[j])
      {
        assert s[j] == s[1..][j - 1];
      }
    }
  }

  /** The number of whitespace characters at the end of `s`. */
  function TrailingSpaces(s: string): (k: nat)
    ensures k <= |s|
    ensures k < |s| ==> !IsSpace(s[|s| - 1 - k])
  {
    if s != [] && IsSpace(s[|s| - 1]) then 1 + TrailingSpaces(s[..|s| - 1]) else 0
  }

  /** The characters counted by `TrailingSpaces` are whitespace. */
  lemma {:induction false} TrailingAreSpaces(s: string)
    ensures forall j :: |s| - TrailingSpaces(s) <= j < |s| ==> IsSpace(s[j])
  {
    if s != [] && IsSpace(s[|s| - 1]) {
      var u := s[..|s| - 1];
      TrailingAreSpaces(u);
      forall j | |s| - TrailingSpaces(s) <= j < |s| - 1
        ensures IsSpace(s[j])
      {
        assert s[j] == u[j];
      }
    }
  }

  /**
   * `str.strip()`: the stretch of `s` left when the leading and trailing
   * whitespace is removed; the result neither starts nor ends with whitespace.
   */
  function Strip(s: string): (r: string)
    ensures |r| <= |s|
    ensures r != [] ==> !IsSpace(r[0]) && !IsSpace(r[|r| - 1])
  {
    var t := s[LeadingSpaces(s)..];
    t[..|t| - TrailingSpaces(t)]
  }

  /** Where the stripped text sits in `s`: just after the leading whitespace. */
  lemma StripSlice(s: string)
    ensures LeadingSpaces(s) + |Strip(s)| <= |s|
    ensures Strip(s) == s[LeadingSpaces(s)..LeadingSpaces(s) + |Strip(s)|]
  {
    var k := LeadingSpaces(s);
    var t := s[k..];
    var m := |t| - TrailingSpaces(t);
    assert t[..m] == s[k..k + m];
  }

  /** Only whitespace follows the stripped text in `s`. */
  lemma StripTail(s: string)
    ensures forall j :: LeadingSpaces(s) + |Strip(s)| <= j < |s| ==> IsSpace(s[j])
  {
    var k := LeadingSpaces(s);
    var t := s[k..];
    TrailingAreSpaces(t);
    forall j | k + |Strip(s)| <= j < |s|
      ensures IsSpace(s[j])
    {
      assert s[j] == t[j - k];
    }
  }

  /** Where the stripped text sits in `s`: after the leading whitespace, followed only by whitespace. */
  lemma StripShape(s: string)
    ensures LeadingSpaces(s) + |Strip(s)| <= |s|
    ensures Strip(s) == s[LeadingSpaces(s)..LeadingSpaces(s) + |Strip(s)|]
    ensures forall j :: 0 <= j < LeadingSpaces(s) ==> IsSpace(s[j])
    ensures forall j :: LeadingSpaces(s) + |Strip(s)| <= j < |s| ==> IsSpace(s[j])
  {
    StripSlice(s);
    LeadingAreSpaces(s);
    StripTail(s);
  }

  /** A string with no whitespace at either end is its own strip. */
  lemma StripUnchanged(s: string)
    requires s == [] || (!IsSpace(s[0]) && !IsSpace(s[|s| - 1]))
    ensures Strip(s) == s
  {
    if s != [] {
      assert LeadingSpaces(s) == 0;
      assert TrailingSpaces(s) == 0;
    }
  }

  /** `s.split(sep)`: the pieces between the separators, empty pieces included. */
  function Split(s: string, sep: char): (parts: seq<string>)
    ensures |parts| >= 1
    ensures forall k :: 0 <= k < |parts| ==> sep !in parts[k]
    decreases |s|
  {
    if s == [] then [[]]
    else
      var rest := Split(s[1..], sep);
      if s[0] == sep then [[]] + rest else [[s[0]] + rest[0]] + rest[1..]
  }

  /** `sep.join(parts)`. */
  function Join(parts: seq<string>, sep: char): string
    decreases |parts|
  {
    if parts == [] then []
    else if |parts| == 1 then parts[0]
    else parts[0] + [sep] + Join(parts[1..], sep)
  }

  /** Splitting and joining again gives back the original string. */
  lemma {:induction false} JoinSplit(s: string, sep: char)
    ensures Join(Split(s, sep), sep) == s
    decreases |s|
  {
    if s != [] {
      JoinSplit(s[1..], sep);
      var rest := Split(s[1..], sep);
      if s[0] == sep {
        assert Split(s, sep) == [[]] + rest;
        assert Join(Split(s, sep), sep) == [sep] + Join(rest, sep);
      } else {
        assert Split(s, sep) == [[s[0]] + rest[0]] + rest[1..];
        if |rest| == 1 {
          assert Join(Split(s, sep), sep) == [s[0]] + rest[0];
        } else {
          assert rest == [rest[0]] + rest[1..];
          assert Join(Split(s, sep), sep) == [s[0]] + rest[0] + [sep] + Join(rest[1..], sep);
        }
      }
    }
  }

  /** Joining pieces that hold no separator and splitting again gives back the pieces. */
  lemma {:induction false} SplitJoin(parts: seq<string>, sep: char)
    requires |parts| >= 1
    requires forall k :: 0 <= k < |parts| ==> sep !in parts[k]
    ensures Split(Join(parts, sep), sep) == parts
    decreases |parts|, |parts[0]|
  {
    if |parts| == 1 {
      SplitNoSep(parts[0], sep);
    } else if parts[0] == [] {
      SplitJoin(parts[1..], sep);
      assert Join(parts, sep) == [sep] + Join(parts[1..], sep);
      assert ([sep] + Join(parts[1..], sep))[1..] == Join(parts[1..], sep);
    } else {
      var p := parts[0];
      var shorter := [p[1..]] + parts[1..];
      SplitJoin(shorter, sep);
      assert Join(shorter, sep) == p[1..] + [sep] + Join(parts[1..], sep);
      assert Join(parts, sep) == [p[0]] + Join(shorter, sep);
      assert p[0] != sep;
      assert [p[0]] + p[1..] == p;
    }
  }

  /** A string without the separator splits into itself. */
  lemma {:induction false} SplitNoSep(s: string, sep: char)
    requires sep !in s
    ensures Split(s, sep) == [s]
    decreases |s|
  {
    if s != [] {
      SplitNoSep(s[1..], sep);
      assert [s[0]] + s[1..] == s;
    }
  }

  /** The strings that are not empty once stripped, stripped, in order. */
  function Kept(ss: seq<string>): (ks: seq<string>)
    ensures |ks| <= |ss|
    ensures forall k :: 0 <= k < |ks| ==> ks[k] != [] && !IsSpace(ks[k][0]) && !IsSpace(ks[k][|ks[k]| - 1])
    decreases |ss|
  {
    if ss == [] then []
    else if Strip(ss[0]) == [] then Kept(ss[1..])
    else [Strip(ss[0])] + Kept(ss[1..])
  }

  /** A character that none of the strings holds is in none of the kept ones. */
  lemma {:induction false} KeptAvoids(ss: seq<string>, c: char)
    requires forall j :: 0 <= j < |ss| ==> c !in ss[j]
    ensures forall k :: 0 <= k < |Kept(ss)| ==> c !in Kept(ss)[k]
    decreases |ss|
  {
    if ss != [] {
      KeptAvoids(ss[1..], c);
      var r := Strip(ss[0]);
      StripShape(ss[0]);
      assert c !in r by {
        var a := LeadingSpaces(ss[0]);
        forall x | 0 <= x < |r|
          ensures r[x] != c
        {
          assert r[x] == ss[0][a + x];
        }
      }
    }
  }

  /** Strings that are non-empty and already stripped are all kept, unchanged. */
  lemma {:induction false} KeptUnchanged(ss: seq<string>)
    requires forall j :: 0 <= j < |ss| ==> ss[j] != [] && !IsSpace(ss[j][0]) && !IsSpace(ss[j][|ss[j]| - 1])
    ensures Kept(ss) == ss
    decreases |ss|
  {
    if ss != [] {
      StripUnchanged(ss[0]);
      KeptUnchanged(ss[1..]);
      assert [ss[0]] + ss[1..] == ss;
    }
  }
}
