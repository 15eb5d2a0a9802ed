/**
 * The few Python string operations the parser and the error scraper use:
 * `startswith`, `strip`, `rstrip`, slicing past the end, and `split` on one
 * separator character.
 */
module Strings {

  /** `s.startswith(prefix)` */
  predicate StartsWith(s: string, prefix: string) {
    |prefix| <= |s| && s[..|prefix|] == prefix
  }

  /** The ASCII characters for which Python's `str.isspace` holds. */
  predicate IsSpace(c: char) {
    c == ' ' || c == '\t' || c == '\n' || c == '\r' || c == '\U{B}' || c == '\U{C}'
    || ('\U{1C}' <= c <= '\U{1F}')
  }

  /** `s.lstrip()`: drops the leading whitespace. */
  function LStrip(s: string): string {
    if s != [] && IsSpace(s[0]) then LStrip(s[1..]) else s
  }

  /** `s.rstrip()`: drops the trailing whitespace. */
  function RStrip(s: string): string {
    if s != [] && IsSpace(s[|s| - 1]) then RStrip(s[..|s| - 1]) else s
  }

  /** `s.strip()` */
  function Strip(s: string): string {
    RStrip(LStrip(s))
  }

  /**
   * `lstrip` keeps a suffix of `s`, drops only whitespace, and leaves no
   * leading whitespace.
   */
  lemma {:induction false} LStripIsSuffix(s: string)
    ensures var r := LStrip(s);
            && |r| <= |s|
            && (forall j {:trigger r[j]} :: 0 <= j < |r| ==> r[j] == s[|s| - |r| + j])
            && (forall j :: 0 <= j < |s| - |r| ==> IsSpace(s[j]))
            && (r == [] || !IsSpace(r[0]))
    decreases |s|
  {
    if s != [] && IsSpace(s[0]) {
      var t := s[1..];
      LStripIsSuffix(t);
      var r := LStrip(t);
      assert LStrip(s) == r;
      forall j | 0 <= j < |r| ensures r[j] == s[|s| - |r| + j] {
        assert s[|s| - |r| + j] == t[|t| - |r| + j];
      }
      forall j | 0 <= j < |s| - |r| ensures IsSpace(s[j]) {
        if j > 0 {
          assert s[j] == t[j - 1];
        }
      }
    }
  }

  /**
   * `rstrip` keeps a prefix of `s`, drops only whitespace, and leaves no
   * trailing whitespace.
   */
  lemma {:induction false} RStripIsPrefix(s: string)
    ensures var r := RStrip(s);
            && |r| <= |s|
            && (forall j {:trigger r[j]} :: 0 <= j < |r| ==> r[j] == s[j])
            && (forall j :: |r| <= j < |s| ==> IsSpace(s[j]))
            && (r == [] || !IsSpace(r[|r| - 1]))
    decreases |s|
  {
    if s != [] && IsSpace(s[|s| - 1]) {
      RStripIsPrefix(s[..|s| - 1]);
    }
  }

  /**
   * `strip` keeps the run `s[a..a + |r|]` of `s` and drops only whitespace
   * around it, leaving none at either end.
   */
  lemma StripTrims(s: string)
    ensures var r := Strip(s);
            var a := |s| - |LStrip(s)|;
            && 0 <= a && a + |r| <= |s|
            && (forall j {:trigger r[j]} :: 0 <= j < |r| ==> r[j] == s[a + j])
            && (forall j :: 0 <= j < |s| && (j < a || a + |r| <= j) ==> IsSpace(s[j]))
            && (r == [] || (!IsSpace(r[0]) && !IsSpace(r[|r| - 1])))
  {
    StripKeepsRun(s);
    StripDropsLeadingSpace(s);
    StripDropsTrailingSpace(s);
  }

  /** What `strip` keeps: a run of `s` with no whitespace at either end. */
  lemma StripKeepsRun(s: string)
    ensures var r := Strip(s);
            var a := |s| - |LStrip(s)|;
            && 0 <= a && a + |r| <= |s|
            && (forall j {:trigger r[j]} :: 0 <= j < |r| ==> r[j] == s[a + j])
            && (r == [] || (!IsSpace(r[0]) && !IsSpace(r[|r| - 1])))
  {
    var l := LStrip(s);
    var r := RStrip(l);
    var a := |s| - |l|;
    LStripIsSuffix(s);
    RStripIsPrefix(l);
    forall j | 0 <= j < |r| ensures r[j] == s[a + j] {
      assert r[j] == l[j];
    }
    if r != [] {
      assert r[0] == l[0];
    }
  }

  /** What `strip` drops on the left: whitespace only. */
  lemma StripDropsLeadingSpace(s: string)
    ensures forall j :: 0 <= j < |s| - |LStrip(s)| ==> IsSpace(s[j])
  {
    LStripIsSuffix(s);
  }

  /** What `strip` drops on the right: whitespace only. */
  lemma StripDropsTrailingSpace(s: string)
    ensures var r := Strip(s);
            var a := |s| - |LStrip(s)|;
            forall j :: 0 <= j < |s| && a + |r| <= j ==> IsSpace(s[j])
  {
    var l := LStrip(s);
    var r := RStrip(l);
    var a := |s| - |l|;
    forall j | 0 <= j < |s| && a + |r| <= j ensures IsSpace(s[j]) {
      LStripAt(s, j - a);
      RStripDropsAt(l, j - a);
    }
  }

  /** Character `k` of `lstrip(s)` is the one at the same place in `s`. */
  lemma LStripAt(s: string, k: int)
    requires 0 <= k < |LStrip(s)|
    ensures |LStrip(s)| <= |s| && LStrip(s)[k] == s[|s| - |LStrip(s)| + k]
  {
    LStripIsSuffix(s);
  }

  /** `rstrip(s)` drops only whitespace. */
  lemma RStripDropsAt(s: string, k: int)
    requires |RStrip(s)| <= k < |s|
    ensures IsSpace(s[k])
  {
    RStripIsPrefix(s);
  }

  /**
   * Python's `s[n:]`: what is left of `s` once its first `n` elements are
   * taken off, and nothing when `n` is past the end.
   */
  function Drop<T>(s: seq<T>, n: nat): (r: seq<T>)
    ensures n <= |s| ==> s[..n] + r == s
    ensures n >= |s| ==> r == []
  {
    if n <= |s| then
      assert s == s[..n] + s[n..];
      s[n..]
    else []
  }

  /** `sep.join(parts)` */
  function Join(parts: seq<string>, sep: char): string {
    if |parts| <= 1 then (if parts == [] then [] else parts[0])
    else parts[0] + [sep] + Join(parts[1..], sep)
  }

  /** `s.split(sep)` for a one-character separator: always at least one piece. */
  function Split(s: string, sep: char): (parts: seq<string>)
    ensures |parts| >= 1
    ensures forall i :: 0 <= i < |parts| ==> sep !in parts[i]
    ensures Join(parts, sep) == s
    decreases |s|
  {
    if sep !in s then [s]
    else
      var k := IndexOf(s, sep);
      var rest := Split(s[k + 1..], sep);
      assert s == s[..k] + [sep] + s[k + 1..];
      [s[..k]] + rest
  }

  /** The position of the first `c` in `s`. */
  function IndexOf(s: string, c: char): (k: nat)
    requires c in s
    ensures k < |s| && s[k] == c && c !in s[..k]
  {
    if s[0] == c then 0 else 1 + IndexOf(s[1..], c)
  }
}
