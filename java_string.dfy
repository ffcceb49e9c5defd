/**
 * The two operations of java.lang.String that the gateway's filters use:
 * `split` with a one-character literal separator (limit 0), and `trim`.
 * Java strings are sequences of UTF-16 code units; here a string is a
 * `seq<char>`, which agrees with Java for every comparison made below.
 */
module JavaString {

  /** The characters `String.trim` removes: every character at or below U+0020. */
  predicate IsBlank(c: char)
  {
    c <= ' '
  }

  /** The number of blanks at the start of `s`. */
  function LeadingBlanks(s: string): (n: nat)
    ensures n <= |s|
    ensures forall i :: 0 <= i < n ==> IsBlank(s[i])
    ensures n < |s| ==> !IsBlank(s[n])
  {
    if |s| > 0 && IsBlank(s[0]) then 1 + LeadingBlanks(s[1..]) else 0
  }

  /** The number of blanks at the end of `s`. */
  function TrailingBlanks(s: string): (n: nat)
    ensures n <= |s|
    ensures forall i :: |s| - n <= i < |s| ==> IsBlank(s[i])
    ensures n < |s| ==> !IsBlank(s[|s| - 1 - n])
  {
    if |s| > 0 && IsBlank(s[|s| - 1]) then 1 + TrailingBlanks(s[..|s| - 1]) else 0
  }

  /**
   * `String.trim`: `s` with the blanks at both of its ends removed and
   * nothing else; the result neither starts nor ends with a blank.
   */
  function Trim(s: string): (r: string)
    ensures r == [] || (!IsBlank(r[0]) && !IsBlank(r[|r| - 1]))
    ensures LeadingBlanks(s) + |r| <= |s|
    ensures r == s[LeadingBlanks(s)..LeadingBlanks(s) + |r|]
    ensures forall i :: LeadingBlanks(s) + |r| <= i < |s| ==> IsBlank(s[i])
  {
    var t := s[LeadingBlanks(s)..];
    t[..|t| - TrailingBlanks(t)]
  }

  /** Trimming twice is trimming once. */
  lemma TrimIdempotent(s: string)
    ensures Trim(Trim(s)) == Trim(s)
  {
  }

  /** Trimming removes characters only, so it adds none. */
  lemma TrimAddsNothing(s: string, c: char)
    requires c !in s
    ensures c !in Trim(s)
  {
  }

  /** Index of the first occurrence of `c` in `s`. */
  function IndexOf(s: string, c: char): (i: nat)
    requires c in s
    ensures i < |s| && s[i] == c && c !in s[..i]
  {
    if s[0] == c then 0
    else
      var j := IndexOf(s[1..], c);
      assert s[..j + 1] == [s[0]] + s[1..][..j];
      j + 1
  }

  /** The text of `s` before the first `c`, or all of `s` when `c` does not occur. */
  function TextBefore(s: string, c: char): (r: string)
    ensures r <= s && c !in r
    ensures |r| == |s| || s[|r|] == c
  {
    if c in s then s[..IndexOf(s, c)] else s
  }

  /** The contract of TextBefore determines its result. */
  lemma TextBeforeUnique(s: string, c: char, p: string)
    requires p <= s && c !in p
    requires |p| == |s| || s[|p|] == c
    ensures p == TextBefore(s, c)
  {
  }

  /** The pieces joined back together with `sep` between them. */
  function Join(parts: seq<string>, sep: char): (s: string)
  {
    if |parts| == 0 then ""
    else if |parts| == 1 then parts[0]
    else parts[0] + [sep] + Join(parts[1..], sep)
  }

  /**
   * `s` cut at every `sep`, empty pieces included: one piece more than there
   * are separators. This is what Java's split computes before it drops
   * trailing empty strings.
   */
  function Pieces(s: string, sep: char): (r: seq<string>)
    ensures |r| >= 1 && r[0] == TextBefore(s, sep)
    ensures forall i :: 0 <= i < |r| ==> sep !in r[i]
    ensures Join(r, sep) == s
    decreases |s|
  {
    if sep !in s then [s]
    else
      var i := IndexOf(s, sep);
      var rest := Pieces(s[i + 1..], sep);
      assert s == s[..i] + [sep] + s[i + 1..];
      [s[..i]] + rest
  }

  /** Cutting a text at a separator that occurs first at position |p|. */
  lemma PiecesCons(p: string, sep: char, rest: string)
    requires sep !in p
    ensures Pieces(p + [sep] + rest, sep) == [p] + Pieces(rest, sep)
  {
    var s := p + [sep] + rest;
    assert s[|p|] == sep;
    var i := IndexOf(s, sep);
    assert s[..i] == p;
    assert s[i + 1..] == rest;
  }

  /** Cutting is the inverse of joining, for pieces that hold no separator. */
  lemma {:induction false} PiecesOfJoin(parts: seq<string>, sep: char)
    requires |parts| >= 1
    requires forall i :: 0 <= i < |parts| ==> sep !in parts[i]
    ensures Pieces(Join(parts, sep), sep) == parts
  {
    if |parts| > 1 {
      PiecesOfJoin(parts[1..], sep);
      PiecesCons(parts[0], sep, Join(parts[1..], sep));
      assert parts == [parts[0]] + parts[1..];
    }
  }

  /** Every string in `parts` is empty. */
  predicate AllEmpty(parts: seq<string>)
  {
    forall i :: 0 <= i < |parts| ==> parts[i] == ""
  }

  /** Every character of `s` is `c`. */
  predicate AllChar(s: string, c: char)
  {
    forall j :: 0 <= j < |s| ==> s[j] == c
  }

  lemma AllCharCons(c: char, rest: string)
    ensures AllChar([c] + rest, c) <==> AllChar(rest, c)
  {
    var s := [c] + rest;
    if AllChar(s, c) {
      forall j | 0 <= j < |rest| ensures rest[j] == c {
        assert rest[j] == s[j + 1];
      }
    }
  }

  lemma AllEmptyCons(p: string, qs: seq<string>)
    ensures AllEmpty([p] + qs) <==> p == "" && AllEmpty(qs)
  {
    var ps := [p] + qs;
    assert ps[0] == p;
    if AllEmpty(ps) {
      forall k | 0 <= k < |qs| ensures qs[k] == "" {
        assert qs[k] == ps[k + 1];
      }
    }
    if p == "" && AllEmpty(qs) {
      forall k | 1 <= k < |ps| ensures ps[k] == "" {
        assert ps[k] == qs[k - 1];
      }
    }
  }

  /** Every piece is empty exactly when every character of `s` is the separator. */
  lemma {:induction false} PiecesAllEmpty(s: string, sep: char)
    ensures AllEmpty(Pieces(s, sep)) <==> AllChar(s, sep)
    decreases |s|
  {
    if sep !in s {
      assert Pieces(s, sep) == [s];
      if |s| > 0 {
        assert s[0] in s;
      }
    } else {
      var i := IndexOf(s, sep);
      var rest := s[i + 1..];
      PiecesAllEmpty(rest, sep);
      assert Pieces(s, sep) == [s[..i]] + Pieces(rest, sep);
      AllEmptyCons(s[..i], Pieces(rest, sep));
      if i == 0 {
        assert s == [sep] + rest;
        AllCharCons(sep, rest);
      } else {
        assert s[..i][0] == s[0];
        assert s[0] != sep;
      }
    }
  }

  /** The pieces left after removing empty strings from the end. */
  function DropTrailingEmpty(parts: seq<string>): (r: seq<string>)
    ensures |r| <= |parts| && r == parts[..|r|]
    ensures forall i :: |r| <= i < |parts| ==> parts[i] == ""
    ensures r == [] || r[|r| - 1] != ""
  {
    if |parts| > 0 && parts[|parts| - 1] == "" then DropTrailingEmpty(parts[..|parts| - 1]) else parts
  }

  /**
   * Java's `s.split(String.valueOf(sep))` with no limit, for a separator that
   * is not a regular-expression metacharacter: when `sep` occurs, the pieces
   * of `s` with trailing empty pieces removed; when it does not, `[s]`, even
   * for the empty string.
   */
  function Split(s: string, sep: char): (r: seq<string>)
    ensures |r| <= |Pieces(s, sep)| && r == Pieces(s, sep)[..|r|]
    ensures forall i :: |r| <= i < |Pieces(s, sep)| ==> Pieces(s, sep)[i] == ""
    ensures sep in s ==> r == [] || r[|r| - 1] != ""
    ensures sep !in s ==> r == [s]
    ensures forall i :: 0 <= i < |r| ==> sep !in r[i]
    ensures |r| > 0 ==> r[0] == TextBefore(s, sep)
  {
    if sep !in s then [s] else DropTrailingEmpty(Pieces(s, sep))
  }

  /** A piece that is not empty survives the removal of trailing empty pieces. */
  lemma SplitKeeps(s: string, sep: char, i: nat)
    requires i < |Pieces(s, sep)| && Pieces(s, sep)[i] != ""
    ensures i < |Split(s, sep)| && Split(s, sep)[i] == Pieces(s, sep)[i]
  {
  }

  /** Split keeps more than `k` elements exactly when some piece from index `k` on is not empty. */
  lemma SplitLongerIff(s: string, sep: char, k: nat)
    requires sep in s && k <= |Pieces(s, sep)|
    ensures |Split(s, sep)| > k <==> !AllEmpty(Pieces(s, sep)[k..])
  {
    var ps := Pieces(s, sep);
    if !AllEmpty(ps[k..]) {
      var j :| 0 <= j < |ps[k..]| && ps[k..][j] != "";
      SplitKeeps(s, sep, k + j);
    }
  }

  /** Split yields no element at all exactly for a non-empty text made only of separators. */
  lemma SplitEmptyIff(s: string, sep: char)
    ensures |Split(s, sep)| == 0 <==> (|s| > 0 && AllChar(s, sep))
  {
    PiecesAllEmpty(s, sep);
    if |s| > 0 && AllChar(s, sep) {
      assert s[0] in s;
    }
  }
}
