/** The standard-library string operations the parser and the command line
    rely on, each modelled with Rust's `str` semantics on `seq<char>`:
    `split(char)`, `trim`, `trim_start_matches(char)`,
    `trim_end_matches(char)`, `split_whitespace` and `replace(char, ...)`. */
module Strings {

  /** `char::is_whitespace`: the Unicode `White_Space` property. */
  predicate IsWhitespace(c: char) {
    var n := c as int;
    || 0x09 <= n <= 0x0D
    || n == 0x20
    || n == 0x85
    || n == 0xA0
    || n == 0x1680
    || 0x2000 <= n <= 0x200A
    || n == 0x2028
    || n == 0x2029
    || n == 0x202F
    || n == 0x205F
    || n == 0x3000
  }

  predicate HasNoWhitespace(s: string) {
    forall i :: 0 <= i < |s| ==> !IsWhitespace(s[i])
  }

  predicate EndsWith(s: string, suffix: string) {
    |suffix| <= |s| && s[|s| - |suffix|..] == suffix
  }

  // ---------------------------------------------------------------------
  // split(char) and its inverse

  /** The pieces joined back with `sep` between them. */
  function Join(parts: seq<string>, sep: char): string
    requires |parts| >= 1
  {
    if |parts| == 1 then parts[0] else parts[0] + [sep] + Join(parts[1..], sep)
  }

  /** `s.split(sep)`: always at least one piece (the empty string gives one
      empty piece), no piece contains `sep`, and joining the pieces with `sep`
      rebuilds `s`. */
  function SplitOn(s: string, sep: char): (parts: seq<string>)
    ensures |parts| >= 1
    ensures forall i :: 0 <= i < |parts| ==> sep !in parts[i]
    ensures Join(parts, sep) == s
    decreases |s|
  {
    if |s| == 0 then [""]
    else
      var rest := SplitOn(s[1..], sep);
      if s[0] == sep then
        [""] + rest
      else
        var parts := [[s[0]] + rest[0]] + rest[1..];
        JoinConsChar(s[0], rest, sep);
        parts
  }

  /** Prepending a character to the first piece prepends it to the join. */
  lemma {:induction false} JoinConsChar(c: char, parts: seq<string>, sep: char)
    requires |parts| >= 1
    ensures Join([[c] + parts[0]] + parts[1..], sep) == [c] + Join(parts, sep)
  {
    var ps := [[c] + parts[0]] + parts[1..];
    if |parts| > 1 {
      assert ps[1..] == parts[1..];
    }
  }

  /** Splitting a join of separator-free pieces gives the pieces back, so
      `SplitOn` and `Join` are inverse bijections. */
  lemma {:induction false} SplitJoin(parts: seq<string>, sep: char)
    requires |parts| >= 1
    requires forall i :: 0 <= i < |parts| ==> sep !in parts[i]
    ensures SplitOn(Join(parts, sep), sep) == parts
    decreases |Join(parts, sep)|
  {
    var s := Join(parts, sep);
    var ps := SplitOn(s, sep);
    SplitUnique(ps, parts, sep);
  }

  /** Joining two runs of pieces puts one separator between their joins. */
  lemma {:induction false} JoinAppend(a: seq<string>, b: seq<string>, sep: char)
    requires |a| >= 1 && |b| >= 1
    ensures Join(a + b, sep) == Join(a, sep) + [sep] + Join(b, sep)
    decreases |a|
  {
    if |a| > 1 {
      assert (a + b)[1..] == a[1..] + b;
      JoinAppend(a[1..], b, sep);
    } else {
      assert (a + b)[1..] == b;
    }
  }

  /** Splitting at a separator splits each side on its own. */
  lemma {:induction false} SplitOnAppend(x: string, y: string, sep: char)
    ensures SplitOn(x + [sep] + y, sep) == SplitOn(x, sep) + SplitOn(y, sep)
  {
    var a := SplitOn(x, sep);
    var b := SplitOn(y, sep);
    JoinAppend(a, b, sep);
    SplitJoin(a + b, sep);
  }

  /** Two separator-free splittings with the same join are equal. */
  lemma {:induction false} SplitUnique(a: seq<string>, b: seq<string>, sep: char)
    requires |a| >= 1 && |b| >= 1
    requires forall i :: 0 <= i < |a| ==> sep !in a[i]
    requires forall i :: 0 <= i < |b| ==> sep !in b[i]
    requires Join(a, sep) == Join(b, sep)
    ensures a == b
    decreases |a| + |b|
  {
    var s := Join(a, sep);
    if |a[0]| < |b[0]| {
      PieceBoundary(a, sep);
      assert false;
    } else if |b[0]| < |a[0]| {
      PieceBoundary(b, sep);
      assert false;
    } else {
      assert a[0] == s[..|a[0]|] == b[0];
      if |a| == 1 && |b| > 1 {
        assert false;
      } else if |b| == 1 && |a| > 1 {
        assert false;
      } else if |a| > 1 {
        assert Join(a[1..], sep) == s[|a[0]| + 1..] == Join(b[1..], sep);
        SplitUnique(a[1..], b[1..], sep);
        assert a == [a[0]] + a[1..];
        assert b == [b[0]] + b[1..];
      }
    }
  }

  /** The first piece ends at the first separator of the join, if any. */
  lemma {:induction false} PieceBoundary(parts: seq<string>, sep: char)
    requires |parts| >= 1
    ensures Join(parts, sep)[..|parts[0]|] == parts[0]
    ensures |parts| > 1 ==> |Join(parts, sep)| > |parts[0]| && Join(parts, sep)[|parts[0]|] == sep
    ensures |parts| == 1 ==> |Join(parts, sep)| == |parts[0]|
  {
  }

  // ---------------------------------------------------------------------
  // trimming

  /** `trim_start_matches(c)`: drops every leading `c`. */
  function TrimStartChar(s: string, c: char): (r: string)
    ensures EndsWith(s, r)
    ensures |r| == 0 || r[0] != c
    ensures forall i :: 0 <= i < |s| - |r| ==> s[i] == c
  {
    if |s| > 0 && s[0] == c then
      var r := TrimStartChar(s[1..], c);
      assert s[|s| - |r|..] == s[1..][|s| - 1 - |r|..];
      assert forall i :: 1 <= i < |s| ==> s[i] == s[1..][i - 1];
      r
    else s
  }

  /** `trim_end_matches(c)`: drops every trailing `c`. */
  function TrimEndChar(s: string, c: char): (r: string)
    ensures |r| <= |s| && r == s[..|r|]
    ensures |r| == 0 || r[|r| - 1] != c
    ensures forall i :: |r| <= i < |s| ==> s[i] == c
  {
    if |s| > 0 && s[|s| - 1] == c then
      var r := TrimEndChar(s[..|s| - 1], c);
      assert forall i :: 0 <= i < |s| - 1 ==> s[i] == s[..|s| - 1][i];
      r
    else s
  }

  /** Drops leading whitespace. */
  function TrimStart(s: string): (r: string)
    ensures EndsWith(s, r)
    ensures |r| == 0 || !IsWhitespace(r[0])
    ensures forall i :: 0 <= i < |s| - |r| ==> IsWhitespace(s[i])
  {
    if |s| > 0 && IsWhitespace(s[0]) then
      var r := TrimStart(s[1..]);
      assert s[|s| - |r|..] == s[1..][|s| - 1 - |r|..];
      assert forall i :: 1 <= i < |s| ==> s[i] == s[1..][i - 1];
      r
    else s
  }

  /** Drops trailing whitespace. */
  function TrimEnd(s: string): (r: string)
    ensures |r| <= |s| && r == s[..|r|]
    ensures |r| == 0 || !IsWhitespace(r[|r| - 1])
    ensures forall i :: |r| <= i < |s| ==> IsWhitespace(s[i])
  {
    if |s| > 0 && IsWhitespace(s[|s| - 1]) then
      var r := TrimEnd(s[..|s| - 1]);
      assert forall i :: 0 <= i < |s| - 1 ==> s[i] == s[..|s| - 1][i];
      r
    else s
  }

  /** Number of whitespace characters at the start of `s`. */
  function LeadingWhitespace(s: string): (n: nat)
    ensures n <= |s|
  {
    |s| - |TrimStart(s)|
  }

  /** `str::trim`: removes whitespace at both ends, so that neither end of
      the result is whitespace. */
  function Trim(s: string): (r: string)
    ensures |r| == 0 || (!IsWhitespace(r[0]) && !IsWhitespace(r[|r| - 1]))
  {
    TrimEnd(TrimStart(s))
  }

  /** The trimmed string is the slice of `s` that starts after its leading
      whitespace. */
  lemma {:induction false} TrimSlice(s: string)
    ensures LeadingWhitespace(s) + |Trim(s)| <= |s|
    ensures Trim(s) == s[LeadingWhitespace(s)..LeadingWhitespace(s) + |Trim(s)|]
  {
    SliceOfSuffix(s, TrimStart(s), Trim(s));
  }

  /** A prefix `r` of a suffix `t` of `s` is the slice of `s` where `t`
      starts. */
  lemma {:induction false} SliceOfSuffix(s: string, t: string, r: string)
    requires EndsWith(s, t)
    requires |r| <= |t| && r == t[..|r|]
    ensures r == s[|s| - |t|..|s| - |t| + |r|]
  {
    assert t == s[|s| - |t|..];
  }

  /** Everything `Trim` removes, on either side, is whitespace. */
  lemma {:induction false} TrimRemovesWhitespace(s: string)
    ensures forall k :: 0 <= k < LeadingWhitespace(s) ==> IsWhitespace(s[k])
    ensures forall k :: LeadingWhitespace(s) + |Trim(s)| <= k < |s| ==> IsWhitespace(s[k])
  {
    var t := TrimStart(s);
    var lead := LeadingWhitespace(s);
    assert t == s[lead..];
    var r := TrimEnd(t);
    forall k | lead + |r| <= k < |s|
      ensures IsWhitespace(s[k])
    {
      SuffixAt(s, lead, k);
    }
  }

  /** Index `k` of `s` is index `k - a` of its suffix from `a`. */
  lemma {:induction false} SuffixAt(s: string, a: nat, k: nat)
    requires a <= k < |s|
    ensures s[a..][k - a] == s[k]
  {
  }

  predicate AllWhitespace(s: string) {
    forall i :: 0 <= i < |s| ==> IsWhitespace(s[i])
  }

  /** Trimming removes exactly the whitespace padding around a word that
      starts and ends with a non-whitespace character. */
  lemma {:induction false} TrimPadded(lead: string, x: string, trail: string)
    requires AllWhitespace(lead) && AllWhitespace(trail)
    requires |x| > 0 && !IsWhitespace(x[0]) && !IsWhitespace(x[|x| - 1])
    ensures Trim(lead + x + trail) == x
  {
    assert lead + x + trail == lead + (x + trail);
    TrimStartPadded(lead, x + trail);
    TrimEndPadded(x, trail);
  }

  lemma {:induction false} TrimStartPadded(lead: string, y: string)
    requires AllWhitespace(lead)
    requires |y| > 0 && !IsWhitespace(y[0])
    ensures TrimStart(lead + y) == y
    decreases |lead|
  {
    if |lead| == 0 {
      assert lead + y == y;
    } else {
      assert (lead + y)[1..] == lead[1..] + y;
      TrimStartPadded(lead[1..], y);
    }
  }

  lemma {:induction false} TrimEndPadded(x: string, trail: string)
    requires AllWhitespace(trail)
    requires |x| > 0 && !IsWhitespace(x[|x| - 1])
    ensures TrimEnd(x + trail) == x
    decreases |trail|
  {
    if |trail| == 0 {
      assert x + trail == x;
    } else {
      var s := x + trail;
      assert s[..|s| - 1] == x + trail[..|trail| - 1];
      TrimEndPadded(x, trail[..|trail| - 1]);
    }
  }

  /** `trim_end_matches(c)` removes a run of `c` appended to a string that
      does not itself end in `c`, and nothing more. */
  lemma {:induction false} TrimEndCharPadded(x: string, run: string, c: char)
    requires |x| == 0 || x[|x| - 1] != c
    requires forall i :: 0 <= i < |run| ==> run[i] == c
    ensures TrimEndChar(x + run, c) == x
    decreases |run|
  {
    if |run| == 0 {
      assert x + run == x;
    } else {
      var s := x + run;
      assert s[..|s| - 1] == x + run[..|run| - 1];
      TrimEndCharPadded(x, run[..|run| - 1], c);
    }
  }

  // ---------------------------------------------------------------------
  // split_whitespace

  /** `s` with every whitespace character removed. */
  function RemoveWhitespace(s: string): string {
    if |s| == 0 then []
    else (if IsWhitespace(s[0]) then [] else [s[0]]) + RemoveWhitespace(s[1..])
  }

  function Concat(ss: seq<string>): string {
    if |ss| == 0 then [] else ss[0] + Concat(ss[1..])
  }

  /** `str::split_whitespace`: the maximal runs of non-whitespace characters,
      in order. A string that starts with a word starts with its token. */
  function SplitWhitespace(s: string): (tokens: seq<string>)
    ensures |s| > 0 && !IsWhitespace(s[0]) ==> |tokens| > 0 && |tokens[0]| > 0 && tokens[0][0] == s[0]
    decreases |s|
  {
    if |s| == 0 then []
    else
      var rest := SplitWhitespace(s[1..]);
      if IsWhitespace(s[0]) then rest
      else if |s| > 1 && !IsWhitespace(s[1]) then [[s[0]] + rest[0]] + rest[1..]
      else [[s[0]]] + rest
  }

  /** Every token is a word: non-empty and free of whitespace. */
  predicate AllWords(tokens: seq<string>) {
    forall i :: 0 <= i < |tokens| ==> |tokens[i]| > 0 && HasNoWhitespace(tokens[i])
  }

  /** Each token is non-empty and whitespace-free. */
  lemma {:induction false} SplitWhitespaceWords(s: string)
    ensures AllWords(SplitWhitespace(s))
    decreases |s|
  {
    if |s| > 0 {
      SplitWhitespaceWords(s[1..]);
      var rest := SplitWhitespace(s[1..]);
      if !IsWhitespace(s[0]) && |s| > 1 && !IsWhitespace(s[1]) {
        var tokens := [[s[0]] + rest[0]] + rest[1..];
        forall i | 0 <= i < |tokens|
          ensures |tokens[i]| > 0 && HasNoWhitespace(tokens[i])
        {
          if i == 0 {
            forall k | 0 <= k < |tokens[0]|
              ensures !IsWhitespace(tokens[0][k])
            {
              if k > 0 {
                assert tokens[0][k] == rest[0][k - 1];
              }
            }
          } else {
            assert tokens[i] == rest[i];
          }
        }
      } else if !IsWhitespace(s[0]) {
        var tokens := [[s[0]]] + rest;
        forall i | 0 <= i < |tokens|
          ensures |tokens[i]| > 0 && HasNoWhitespace(tokens[i])
        {
          if i > 0 {
            assert tokens[i] == rest[i - 1];
          }
        }
      }
    }
  }

  /** Together the tokens hold exactly the non-whitespace characters of `s`,
      in order. */
  lemma {:induction false} SplitWhitespaceConcat(s: string)
    ensures Concat(SplitWhitespace(s)) == RemoveWhitespace(s)
    decreases |s|
  {
    if |s| > 0 {
      SplitWhitespaceConcat(s[1..]);
      var rest := SplitWhitespace(s[1..]);
      if !IsWhitespace(s[0]) && |s| > 1 && !IsWhitespace(s[1]) {
        var tokens := [[s[0]] + rest[0]] + rest[1..];
        assert tokens[1..] == rest[1..];
        assert Concat(rest) == rest[0] + Concat(rest[1..]);
        assert Concat(tokens) == ([s[0]] + rest[0]) + Concat(rest[1..]);
      } else if !IsWhitespace(s[0]) {
        var tokens := [[s[0]]] + rest;
        assert tokens[1..] == rest;
      }
    }
  }

  /** A whitespace character separates tokens: splitting around it is
      splitting each side. Together with `SplitWhitespaceWord` this pins the
      tokens down as the maximal non-whitespace runs. */
  lemma {:induction false} SplitWhitespaceAround(a: string, w: char, b: string)
    requires IsWhitespace(w)
    ensures SplitWhitespace(a + [w] + b) == SplitWhitespace(a) + SplitWhitespace(b)
    decreases |a|
  {
    var s := a + [w] + b;
    if |a| == 0 {
      assert s[1..] == b;
    } else {
      assert s[1..] == a[1..] + [w] + b;
      SplitWhitespaceAround(a[1..], w, b);
      if !IsWhitespace(a[0]) && |a| == 1 {
        assert s[1] == w;
      }
    }
  }

  /** A non-empty string without whitespace is a single token. */
  lemma {:induction false} SplitWhitespaceWord(s: string)
    requires |s| > 0 && HasNoWhitespace(s)
    ensures SplitWhitespace(s) == [s]
    decreases |s|
  {
    if |s| > 1 {
      forall i | 0 <= i < |s| - 1
        ensures !IsWhitespace(s[1..][i])
      {
        assert s[1..][i] == s[i + 1];
      }
      SplitWhitespaceWord(s[1..]);
      var rest := SplitWhitespace(s[1..]);
      assert !IsWhitespace(s[0]) && !IsWhitespace(s[1]);
      assert SplitWhitespace(s) == [[s[0]] + rest[0]] + rest[1..];
      assert rest[1..] == [];
      assert [s[0]] + s[1..] == s;
    } else {
      assert SplitWhitespace(s[1..]) == [];
      assert s == [s[0]];
    }
  }

  /** Leading whitespace produces no token. */
  lemma {:induction false} SplitWhitespaceSkip(ws: string, s: string)
    requires AllWhitespace(ws)
    ensures SplitWhitespace(ws + s) == SplitWhitespace(s)
    decreases |ws|
  {
    if |ws| == 0 {
      assert ws + s == s;
    } else {
      assert (ws + s)[1..] == ws[1..] + s;
      SplitWhitespaceSkip(ws[1..], s);
    }
  }

  /** A non-empty run of whitespace separates tokens like a single
      whitespace character does. */
  lemma {:induction false} SplitWhitespaceGap(a: string, gap: string, b: string)
    requires |gap| > 0 && AllWhitespace(gap)
    ensures SplitWhitespace(a + gap + b) == SplitWhitespace(a) + SplitWhitespace(b)
  {
    assert a + gap + b == a + [gap[0]] + (gap[1..] + b);
    SplitWhitespaceAround(a, gap[0], gap[1..] + b);
    SplitWhitespaceSkip(gap[1..], b);
  }

  /** Two words separated by a non-empty run of whitespace are two tokens. */
  lemma {:induction false} SplitWhitespaceTwo(a: string, gap: string, b: string)
    requires |a| > 0 && HasNoWhitespace(a) && |b| > 0 && HasNoWhitespace(b)
    requires |gap| > 0 && AllWhitespace(gap)
    ensures SplitWhitespace(a + gap + b) == [a, b]
  {
    SplitWhitespaceGap(a, gap, b);
    SplitWhitespaceWord(a);
    SplitWhitespaceWord(b);
  }

  // ---------------------------------------------------------------------
  // replace

  /** `s.replace(from, to)` for a one-character pattern and replacement. */
  function ReplaceChar(s: string, from: char, to: char): (r: string)
    ensures |r| == |s|
    ensures forall i :: 0 <= i < |s| ==> r[i] == (if s[i] == from then to else s[i])
  {
    if |s| == 0 then [] else [if s[0] == from then to else s[0]] + ReplaceChar(s[1..], from, to)
  }

  // ---------------------------------------------------------------------
  // ordering

  /** `str::cmp` as `<=`: lexicographic by character, a proper prefix
      first. Rust compares the UTF-8 bytes, which orders the same way as
      comparing the characters' code points. */
  predicate StrLe(a: string, b: string)
    decreases |a|
  {
    |a| == 0 || (|b| > 0 && (a[0] < b[0] || (a[0] == b[0] && StrLe(a[1..], b[1..]))))
  }

  lemma {:induction false} StrLeRefl(a: string)
    ensures StrLe(a, a)
  {
    if |a| > 0 {
      StrLeRefl(a[1..]);
    }
  }

  lemma {:induction false} StrLeTotal(a: string, b: string)
    ensures StrLe(a, b) || StrLe(b, a)
  {
    if |a| > 0 && |b| > 0 && a[0] == b[0] {
      StrLeTotal(a[1..], b[1..]);
    }
  }

  lemma {:induction false} StrLeAntisymmetric(a: string, b: string)
    requires StrLe(a, b) && StrLe(b, a)
    ensures a == b
  {
    if |a| > 0 && |b| > 0 {
      StrLeAntisymmetric(a[1..], b[1..]);
      assert a == [a[0]] + a[1..];
      assert b == [b[0]] + b[1..];
    }
  }

  lemma {:induction false} StrLeTransitive(a: string, b: string, c: string)
    requires StrLe(a, b) && StrLe(b, c)
    ensures StrLe(a, c)
  {
    if |a| > 0 && |b| > 0 && |c| > 0 && a[0] == b[0] && b[0] == c[0] {
      StrLeTransitive(a[1..], b[1..], c[1..]);
    }
  }
}
