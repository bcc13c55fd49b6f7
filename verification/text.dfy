/**
 * ASCII models of the JavaScript string functions the forms use:
 * `trim`, `toLowerCase`, `toUpperCase`, `substring(0, n)` and `split`.
 */
module Text {

  /** The whitespace `trim` removes, restricted to ASCII. */
  predicate IsSpace(c: char) {
    c == ' ' || c == '\t' || c == '\n' || c == '\r' || c == '\U{0B}' || c == '\U{0C}'
  }

  function TrimStart(s: string): string {
    if |s| > 0 && IsSpace(s[0]) then TrimStart(s[1..]) else s
  }

  function TrimEnd(s: string): string {
    if |s| > 0 && IsSpace(s[|s| - 1]) then TrimEnd(s[..|s| - 1]) else s
  }

  /** `s.trim()`. */
  function Trim(s: string): string {
    TrimStart(TrimEnd(s))
  }

  predicate IsBlank(s: string) {
    forall i :: 0 <= i < |s| ==> IsSpace(s[i])
  }

  lemma {:induction false} TrimStartBlank(s: string)
    ensures |TrimStart(s)| == 0 <==> IsBlank(s)
    ensures |TrimStart(s)| > 0 ==> !IsSpace(TrimStart(s)[0])
  {
    if |s| > 0 && IsSpace(s[0]) {
      TrimStartBlank(s[1..]);
      assert IsBlank(s) <==> IsBlank(s[1..]) by {
        if IsBlank(s[1..]) {
          forall i | 0 <= i < |s| ensures IsSpace(s[i]) {
            if i > 0 { assert s[i] == s[1..][i - 1]; }
          }
        }
      }
    }
  }

  lemma {:induction false} TrimEndBlankKeep(s: string)
    ensures IsBlank(TrimEnd(s)) <==> IsBlank(s)
  {
    if |s| > 0 && IsSpace(s[|s| - 1]) {
      var init := s[..|s| - 1];
      TrimEndBlankKeep(init);
      assert IsBlank(s) <==> IsBlank(init) by {
        if IsBlank(init) {
          forall i | 0 <= i < |s| ensures IsSpace(s[i]) {
            if i < |s| - 1 { assert s[i] == init[i]; }
          }
        }
      }
    }
  }

  /** `!s.trim()` holds exactly when `s` consists of whitespace only. */
  lemma TrimEmptyIffBlank(s: string)
    ensures Trim(s) == [] <==> IsBlank(s)
  {
    TrimStartBlank(TrimEnd(s));
    TrimEndBlankKeep(s);
  }

  function LowerChar(c: char): char {
    if 'A' <= c <= 'Z' then (c as int + 32) as char else c
  }

  function UpperChar(c: char): char {
    if 'a' <= c <= 'z' then (c as int - 32) as char else c
  }

  /** `s.toLowerCase()`. */
  function ToLower(s: string): string {
    seq(|s|, i requires 0 <= i < |s| => LowerChar(s[i]))
  }

  /** `s.toUpperCase()`. */
  function ToUpper(s: string): string {
    seq(|s|, i requires 0 <= i < |s| => UpperChar(s[i]))
  }

  /** `s.substring(0, n)`. */
  function Prefix(s: string, n: nat): string {
    if n <= |s| then s[..n] else s
  }

  // ---------------------------------------------------------------------
  // `s.split(sep)` and its inverse `parts.join(sep)`.
  // ---------------------------------------------------------------------

  /** `s.split(sep)`: the segments between separators; never empty. */
  function Split(s: string, sep: char): (r: seq<string>)
    ensures |r| >= 1
  {
    if |s| == 0 then [""]
    else if s[0] == sep then [""] + Split(s[1..], sep)
    else
      var t := Split(s[1..], sep);
      [[s[0]] + t[0]] + t[1..]
  }

  /** `parts.join(sep)`. */
  function Join(parts: seq<string>, sep: char): string
    requires |parts| >= 1
  {
    if |parts| == 1 then parts[0] else parts[0] + [sep] + Join(parts[1..], sep)
  }

  /** Joining the segments back with the separator gives the original text. */
  lemma {:induction false} JoinSplit(s: string, sep: char)
    ensures Join(Split(s, sep), sep) == s
  {
    if |s| > 0 {
      var t := Split(s[1..], sep);
      JoinSplit(s[1..], sep);
      if s[0] == sep {
        assert Split(s, sep)[1..] == t;
      } else {
        var r := Split(s, sep);
        if |t| == 1 {
          assert r == [[s[0]] + t[0]];
        } else {
          assert r[1..] == t[1..];
          assert Join(t, sep) == t[0] + [sep] + Join(t[1..], sep);
        }
      }
    }
  }

  /** No segment contains the separator, and there is one more segment than separators. */
  lemma {:induction false} SplitSegments(s: string, sep: char)
    ensures forall i :: 0 <= i < |Split(s, sep)| ==> sep !in Split(s, sep)[i]
    ensures |Split(s, sep)| == multiset(s)[sep] + 1
  {
    if |s| > 0 {
      SplitSegments(s[1..], sep);
      assert s == [s[0]] + s[1..];
      var t := Split(s[1..], sep);
      var r := Split(s, sep);
      if s[0] != sep {
        forall i | 0 <= i < |r| ensures sep !in r[i] {
          if i > 0 { assert r[i] == t[i]; }
        }
      } else {
        forall i | 0 <= i < |r| ensures sep !in r[i] {
          if i > 0 { assert r[i] == t[i - 1]; }
        }
      }
    }
  }
}
