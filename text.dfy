/**
  String helpers shared by the wheel application: the JavaScript `trim`,
  `toLowerCase`, `includes` and `split` that every resolver and the schema
  indexer use, restricted to ASCII, and the one normalisation they all apply
  (`normalizeKey` and `normalize` in src/App.jsx, `norm` in indexSchema.js).
*/
module Text {

  /** The ASCII characters JavaScript's `trim` removes. */
  predicate IsSpace(c: char)
  {
    c == ' ' || c == '\t' || c == '\n' || c == '\r' || c == '\U{B}' || c == '\U{C}'
  }

  /** The number of white-space characters `s` starts with. */
  function LeadingSpaces(s: string): (n: nat)
    ensures n <= |s|
    ensures n == |s| || !IsSpace(s[n])
  {
    if s != [] && IsSpace(s[0]) then 1 + LeadingSpaces(s[1..]) else 0
  }

  /** Every character before `LeadingSpaces(s)` is white space. */
  lemma {:induction false} LeadingSpacesAre(s: string)
    ensures forall i | 0 <= i < LeadingSpaces(s) :: IsSpace(s[i])
  {
    if s != [] && IsSpace(s[0]) {
      LeadingSpacesAre(s[1..]);
    }
  }

  /** The number of white-space characters `s` ends with. */
  function TrailingSpaces(s: string): (n: nat)
    ensures n <= |s|
    ensures n == |s| || !IsSpace(s[|s| - n - 1])
  {
    if s != [] && IsSpace(s[|s| - 1]) then 1 + TrailingSpaces(s[..|s| - 1]) else 0
  }

  /** Every character from `|s| - TrailingSpaces(s)` on is white space. */
  lemma {:induction false} TrailingSpacesAre(s: string)
    ensures forall i | |s| - TrailingSpaces(s) <= i < |s| :: IsSpace(s[i])
  {
    if s != [] && IsSpace(s[|s| - 1]) {
      TrailingSpacesAre(s[..|s| - 1]);
    }
  }

  /** `r` sits at offset `a` of `s` with only white space around it. */
  ghost predicate TrimmedAt(s: string, r: string, a: int)
  {
    && 0 <= a <= |s| - |r|
    && s[a..a + |r|] == r
    && (forall i | 0 <= i < a :: IsSpace(s[i]))
    && (forall i | a + |r| <= i < |s| :: IsSpace(s[i]))
  }

  /** JavaScript's `String.prototype.trim` over ASCII white space. */
  function Trim(s: string): (r: string)
    ensures |r| <= |s|
    ensures r == [] || (!IsSpace(r[0]) && !IsSpace(r[|r| - 1]))
  {
    var a := LeadingSpaces(s);
    var b := TrailingSpaces(s[a..]);
    s[a..|s| - b]
  }

  /** Trimming removes white space from both ends and nothing else. */
  lemma TrimIsTrimmed(s: string)
    ensures TrimmedAt(s, Trim(s), LeadingSpaces(s))
  {
    var a := LeadingSpaces(s);
    var t := s[a..];
    var b := TrailingSpaces(t);
    assert Trim(s) == s[a..|s| - b];
    LeadingSpacesAre(s);
    TrailingSpacesAre(t);
    forall i | |s| - b <= i < |s|
      ensures IsSpace(s[i])
    {
      assert s[i] == t[i - a];
    }
  }

  /** A string of white space only trims to the empty string, and only such a string does. */
  lemma TrimEmptyIff(s: string)
    ensures Trim(s) == [] <==> forall i | 0 <= i < |s| :: IsSpace(s[i])
  {
    TrimIsTrimmed(s);
    if Trim(s) != [] {
      assert s[LeadingSpaces(s)] == Trim(s)[0];
    }
  }

  /** A string that neither starts nor ends with white space is its own trim. */
  lemma TrimUnchanged(s: string)
    requires s == [] || (!IsSpace(s[0]) && !IsSpace(s[|s| - 1]))
    ensures Trim(s) == s
  {
    assert LeadingSpaces(s) == 0;
    assert TrailingSpaces(s) == 0;
  }

  /** ASCII lower-casing of one character; white space stays white space. */
  function Lower(c: char): (d: char)
    ensures !('A' <= d <= 'Z')
    ensures IsSpace(d) <==> IsSpace(c)
  {
    if 'A' <= c <= 'Z' then (c as int + 32) as char else c
  }

  /** JavaScript's `String.prototype.toLowerCase` over ASCII letters. */
  function ToLower(s: string): (r: string)
    ensures |r| == |s|
  {
    if s == [] then [] else [Lower(s[0])] + ToLower(s[1..])
  }

  /** Lower-casing works character by character. */
  lemma {:induction false} ToLowerAt(s: string)
    ensures forall i | 0 <= i < |s| :: ToLower(s)[i] == Lower(s[i])
  {
    if s != [] {
      ToLowerAt(s[1..]);
    }
  }

  /** The key normalisation of the application: trimmed, then lower-cased. */
  function Normalize(s: string): string
  {
    ToLower(Trim(s))
  }

  /** A normalised string has no surrounding white space and no upper-case ASCII letter. */
  lemma NormalizeShape(s: string)
    ensures |Normalize(s)| <= |s|
    ensures Normalize(s) == [] || (!IsSpace(Normalize(s)[0]) && !IsSpace(Normalize(s)[|Normalize(s)| - 1]))
    ensures forall i | 0 <= i < |Normalize(s)| :: !('A' <= Normalize(s)[i] <= 'Z')
  {
    var t := Trim(s);
    var r := ToLower(t);
    ToLowerAt(t);
    assert r != [] ==> r[0] == Lower(t[0]) && r[|r| - 1] == Lower(t[|t| - 1]);
  }

  /** Normalising twice is normalising once. */
  lemma NormalizeIdempotent(s: string)
    ensures Normalize(Normalize(s)) == Normalize(s)
  {
    var n := Normalize(s);
    NormalizeShape(s);
    TrimUnchanged(n);
    ToLowerAt(n);
    assert ToLower(n) == n;
  }

  /** `t` occurs in `s` starting at index `i`. */
  predicate OccursAt(s: string, t: string, i: int)
  {
    0 <= i <= |s| - |t| && s[i..i + |t|] == t
  }

  /** JavaScript's `s.includes(t)`: `t` occurs in `s` as a contiguous substring. */
  predicate Contains(s: string, t: string)
  {
    exists i | 0 <= i <= |s| - |t| :: OccursAt(s, t, i)
  }

  /** Every string contains the empty string and itself; a longer string is never contained. */
  lemma ContainsBasics(s: string, t: string)
    ensures Contains(s, []) && Contains(s, s)
    ensures Contains(s, t) ==> |t| <= |s|
  {
    assert OccursAt(s, [], 0);
    assert OccursAt(s, s, 0);
  }

  /** Containment both ways means equality. */
  lemma ContainsAntisymmetric(s: string, t: string)
    requires Contains(s, t) && Contains(t, s)
    ensures s == t
  {
    ContainsBasics(s, t);
    ContainsBasics(t, s);
    var i :| 0 <= i <= |s| - |t| && OccursAt(s, t, i);
    assert i == 0;
  }

  /** JavaScript's `s.split(sep)` for a one-character separator. */
  function Split(s: string, sep: char): (r: seq<string>)
    ensures |r| >= 1
  {
    if s == [] then [[]]
    else if s[0] == sep then [[]] + Split(s[1..], sep)
    else
      var rest := Split(s[1..], sep);
      [[s[0]] + rest[0]] + rest[1..]
  }

  /** JavaScript's `parts.join(sep)`. */
  function Join(parts: seq<string>, sep: char): string
    requires |parts| >= 1
  {
    if |parts| == 1 then parts[0] else parts[0] + ([sep] + Join(parts[1..], sep))
  }

  /** Splitting loses nothing: joining the pieces with the separator gives the input back. */
  lemma {:induction false} JoinSplit(s: string, sep: char)
    ensures Join(Split(s, sep), sep) == s
  {
    if s == [] {
    } else if s[0] == sep {
      JoinSplit(s[1..], sep);
      assert s == [sep] + s[1..];
    } else {
      JoinSplit(s[1..], sep);
      var rest := Split(s[1..], sep);
      if |rest| == 1 {
        assert s == [s[0]] + s[1..];
      } else {
        assert Split(s, sep)[1..] == rest[1..];
        assert s == [s[0]] + s[1..];
      }
    }
  }

  /** No piece of a split holds the separator. */
  lemma {:induction false} SplitPiecesLackSeparator(s: string, sep: char)
    ensures forall k, i | 0 <= k < |Split(s, sep)| && 0 <= i < |Split(s, sep)[k]| :: Split(s, sep)[k][i] != sep
  {
    if s != [] {
      SplitPiecesLackSeparator(s[1..], sep);
    }
  }

  /** A string without the separator splits into one piece, the string itself. */
  lemma {:induction false} SplitNoSeparator(s: string, sep: char)
    requires forall i | 0 <= i < |s| :: s[i] != sep
    ensures Split(s, sep) == [s]
  {
    if s != [] {
      SplitNoSeparator(s[1..], sep);
      assert s == [s[0]] + s[1..];
    }
  }

  /** A separator-free prefix followed by the separator is split off as the first piece. */
  lemma {:induction false} SplitAfter(a: string, b: string, sep: char)
    requires forall i | 0 <= i < |a| :: a[i] != sep
    ensures Split(a + [sep] + b, sep) == [a] + Split(b, sep)
  {
    var s := a + [sep] + b;
    if a == [] {
      assert s == [sep] + b;
    } else {
      assert s[1..] == a[1..] + [sep] + b;
      SplitAfter(a[1..], b, sep);
      assert a == [a[0]] + a[1..];
    }
  }

  /** `Normalize` applied to each piece of a split. */
  function NormalizeAll(parts: seq<string>): (r: seq<string>)
    ensures |r| == |parts|
  {
    if parts == [] then [] else [Normalize(parts[0])] + NormalizeAll(parts[1..])
  }

  lemma {:induction false} NormalizeAllAt(parts: seq<string>, k: nat)
    requires k < |parts|
    ensures NormalizeAll(parts)[k] == Normalize(parts[k])
  {
    if k > 0 {
      NormalizeAllAt(parts[1..], k - 1);
    }
  }
}
