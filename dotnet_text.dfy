/**
 * The few .NET string primitives the editor tools rely on, written out:
 * char.IsWhiteSpace, String.Trim / Trim(char), String.IsNullOrWhiteSpace,
 * String.IsNullOrEmpty, ordinal String.Contains, String.Split(char),
 * joining with a separator, and Int32.ToString for non-negative values.
 */
module DotNetText {
  import opened Wrappers

  /** char.IsWhiteSpace: the Unicode space, line and paragraph separators plus U+0009..U+000D and U+0085. */
  predicate IsWhiteSpace(c: char)
  {
    ('\t' <= c <= '\r') || c == ' ' || c == '\U{0085}' || c == '\U{00A0}' || c == '\U{1680}'
    || ('\U{2000}' <= c <= '\U{200A}') || c == '\U{2028}' || c == '\U{2029}'
    || c == '\U{202F}' || c == '\U{205F}' || c == '\U{3000}'
  }

  /** String.IsNullOrWhiteSpace: null, empty, or whitespace only. */
  predicate IsNullOrWhiteSpace(s: Option<string>)
  {
    s.None? || forall k :: 0 <= k < |s.value| ==> IsWhiteSpace(s.value[k])
  }

  /** String.IsNullOrEmpty. */
  predicate IsNullOrEmpty(s: Option<string>)
  {
    s.None? || s.value == ""
  }

  /** The number of leading characters of s that satisfy p. */
  function LeadingCount(s: string, p: char -> bool): (n: nat)
    ensures n <= |s|
    ensures forall k :: 0 <= k < n ==> p(s[k])
    ensures n < |s| ==> !p(s[n])
  {
    if s != [] && p(s[0]) then 1 + LeadingCount(s[1..], p) else 0
  }

  /** The number of trailing characters of s that satisfy p. */
  function TrailingCount(s: string, p: char -> bool): (n: nat)
    ensures n <= |s|
    ensures forall k :: |s| - n <= k < |s| ==> p(s[k])
    ensures n < |s| ==> !p(s[|s| - 1 - n])
  {
    if s != [] && p(s[|s| - 1]) then 1 + TrailingCount(s[..|s| - 1], p) else 0
  }

  /** Drops the leading characters that satisfy p: the longest suffix of s not starting with such a character. */
  function TrimStartBy(s: string, p: char -> bool): (r: string)
    ensures |r| <= |s| && r == s[|s| - |r|..]
    ensures r != [] ==> !p(r[0])
    ensures forall k :: 0 <= k < |s| - |r| ==> p(s[k])
  {
    s[LeadingCount(s, p)..]
  }

  /** A leading run of characters satisfying p, followed by one that does not, is counted exactly. */
  lemma {:induction false} LeadingCountOfRun(run: string, rest: string, p: char -> bool)
    requires forall k :: 0 <= k < |run| ==> p(run[k])
    requires rest == [] || !p(rest[0])
    ensures LeadingCount(run + rest, p) == |run|
  {
    if run != [] {
      assert (run + rest)[1..] == run[1..] + rest;
      LeadingCountOfRun(run[1..], rest, p);
    } else {
      assert run + rest == rest;
    }
  }

  /** Trimming the start drops exactly a leading run of such characters when what follows does not satisfy p. */
  lemma TrimStartOfRun(run: string, rest: string, p: char -> bool)
    requires forall k :: 0 <= k < |run| ==> p(run[k])
    requires rest == [] || !p(rest[0])
    ensures TrimStartBy(run + rest, p) == rest
  {
    LeadingCountOfRun(run, rest, p);
    assert (run + rest)[|run|..] == rest;
  }

  /** r is the part of s that starts at index i. */
  predicate SliceAt(r: string, s: string, i: int)
  {
    0 <= i && i + |r| <= |s| && r == s[i..i + |r|]
  }

  /** A prefix of a suffix is a slice. */
  lemma PrefixOfSuffix(s: string, i: nat, m: nat)
    requires i + m <= |s|
    ensures SliceAt(s[i..][..m], s, i)
  {
    assert s[i..][..m] == s[i..i + m];
  }

  /** Both ends trimmed: what String.Trim does with a set of characters described by p. */
  function TrimBy(s: string, p: char -> bool): (r: string)
    ensures exists i :: SliceAt(r, s, i) && (forall k :: 0 <= k < i ==> p(s[k]))
                        && (forall k :: i + |r| <= k < |s| ==> p(s[k]))
    ensures r != [] ==> !p(r[0]) && !p(r[|r| - 1])
    ensures r == [] <==> forall k :: 0 <= k < |s| ==> p(s[k])
    ensures s == [] || (!p(s[0]) && !p(s[|s| - 1])) ==> r == s
  {
    var lead := LeadingCount(s, p);
    var t := s[lead..];
    var trail := TrailingCount(t, p);
    PrefixOfSuffix(s, lead, |t| - trail);
    TrimBothEnds(s, p, lead, trail);
    t[..|t| - trail]
  }

  /** The facts behind TrimBy's contract, stated on the two counts. */
  lemma TrimBothEnds(s: string, p: char -> bool, lead: nat, trail: nat)
    requires lead == LeadingCount(s, p) && trail == TrailingCount(s[lead..], p)
    ensures lead + trail == |s| <==> forall k :: 0 <= k < |s| ==> p(s[k])
    ensures s == [] || (!p(s[0]) && !p(s[|s| - 1])) ==> lead == 0 && trail == 0
  {
    var t := s[lead..];
    if lead < |s| {
      assert t[0] == s[lead];
    }
    if s != [] && !p(s[0]) && !p(s[|s| - 1]) {
      assert t == s;
    }
  }

  /** String.Trim(): removes leading and trailing whitespace. */
  function Trim(s: string): string
  {
    TrimBy(s, IsWhiteSpace)
  }

  /** Trimming leaves nothing exactly for the strings String.IsNullOrWhiteSpace accepts. */
  lemma TrimEmptyIffWhiteSpace(s: string)
    ensures Trim(s) == "" <==> IsNullOrWhiteSpace(Some(s))
  {
  }

  /** Trimming twice is trimming once. */
  lemma TrimIdempotent(s: string)
    ensures Trim(Trim(s)) == Trim(s)
  {
  }

  /** Ordinal substring test: t occurs in s starting at some index. */
  ghost predicate OccursIn(t: string, s: string)
  {
    exists i :: SliceAt(t, s, i)
  }

  /** String.Contains(string) with the ordinal comparison .NET uses for it. */
  function Contains(s: string, t: string): (r: bool)
    ensures r <==> OccursIn(t, s)
  {
    if |t| > |s| then false
    else if s[..|t|] == t then assert SliceAt(t, s, 0); true
    else
      OccursInStep(t, s);
      Contains(s[1..], t)
  }

  /** An occurrence is at the front or in the rest. */
  lemma OccursInStep(t: string, s: string)
    requires |t| <= |s| && s != []
    ensures OccursIn(t, s) <==> s[..|t|] == t || OccursIn(t, s[1..])
  {
    if s[..|t|] == t {
      assert SliceAt(t, s, 0);
    }
    if OccursIn(t, s[1..]) {
      var i :| SliceAt(t, s[1..], i);
      assert SliceAt(t, s, i + 1);
    }
    if OccursIn(t, s) && s[..|t|] != t {
      var i :| SliceAt(t, s, i);
      assert i != 0;
      assert SliceAt(t, s[1..], i - 1);
    }
  }

  /** String.IndexOf(char): the position of the first occurrence of c, if any. */
  function IndexOf(s: string, c: char): (r: Option<nat>)
    ensures r.Some? ==> r.value < |s| && s[r.value] == c && c !in s[..r.value]
    ensures r.None? ==> c !in s
  {
    if s == [] then None
    else if s[0] == c then Some(0)
    else match IndexOf(s[1..], c)
      case None => None
      case Some(i) => assert s[..i + 1] == [s[0]] + s[1..][..i]; Some(i + 1)
  }

  /** String.Split(sep) with no options: every piece between separators, empty pieces included. */
  function Split(s: string, sep: char): (r: seq<string>)
    ensures |r| >= 1
    ensures forall k :: 0 <= k < |r| ==> sep !in r[k]
  {
    if s == [] then [""]
    else
      var rest := Split(s[1..], sep);
      if s[0] == sep then [""] + rest
      else [[s[0]] + rest[0]] + rest[1..]
  }

  /** The pieces concatenated with sep between each two of them. */
  function Join(pieces: seq<string>, sep: char): string
  {
    if |pieces| == 0 then ""
    else if |pieces| == 1 then pieces[0]
    else pieces[0] + [sep] + Join(pieces[1..], sep)
  }

  /** Split yields more than one piece exactly when the separator occurs. */
  lemma {:induction false} SplitManyIffSeparator(s: string, sep: char)
    ensures |Split(s, sep)| > 1 <==> sep in s
  {
    if s != [] {
      SplitManyIffSeparator(s[1..], sep);
      assert sep in s <==> s[0] == sep || sep in s[1..];
    }
  }

  /** Joining the pieces of a split gives the string back. */
  lemma {:induction false} JoinSplit(s: string, sep: char)
    ensures Join(Split(s, sep), sep) == s
  {
    if s != [] {
      JoinSplit(s[1..], sep);
      var rest := Split(s[1..], sep);
      if s[0] != sep {
        if |rest| > 1 {
          assert ([[s[0]] + rest[0]] + rest[1..])[1..] == rest[1..];
          assert Join(rest, sep) == rest[0] + [sep] + Join(rest[1..], sep);
        }
      } else {
        assert ([""] + rest)[1..] == rest;
      }
    }
  }

  /** Splitting a join gives the pieces back when no piece holds the separator. */
  lemma {:induction false} SplitJoin(pieces: seq<string>, sep: char)
    requires |pieces| >= 1
    requires forall k :: 0 <= k < |pieces| ==> sep !in pieces[k]
    ensures Split(Join(pieces, sep), sep) == pieces
  {
    if |pieces| == 1 {
      SplitPiece(pieces[0], sep);
    } else {
      SplitJoin(pieces[1..], sep);
      SplitPrefix(pieces[0], Join(pieces[1..], sep), sep);
      assert [pieces[0]] + pieces[1..] == pieces;
    }
  }

  /** Splitting at a separator splits the two sides independently. */
  lemma {:induction false} SplitAroundSeparator(a: string, b: string, sep: char)
    ensures Split(a + [sep] + b, sep) == Split(a, sep) + Split(b, sep)
  {
    if a == [] {
      var s := a + [sep] + b;
      assert s == [sep] + b;
      SplitStep(s, sep);
      assert s[1..] == b;
    } else {
      SplitAroundSeparator(a[1..], b, sep);
      SplitAroundStep(a, b, sep);
    }
  }

  /** The inductive step of SplitAroundSeparator. */
  lemma SplitAroundStep(a: string, b: string, sep: char)
    requires a != []
    requires Split(a[1..] + [sep] + b, sep) == Split(a[1..], sep) + Split(b, sep)
    ensures Split(a + [sep] + b, sep) == Split(a, sep) + Split(b, sep)
  {
    var s := a + [sep] + b;
    assert s[0] == a[0] && s[1..] == a[1..] + [sep] + b;
    SplitStep(s, sep);
    SplitStep(a, sep);
    if a[0] == sep {
      AssocCons("", Split(a[1..], sep), Split(b, sep));
    } else {
      FirstPieceExtends([a[0]], Split(a[1..], sep), Split(b, sep));
    }
  }

  lemma AssocCons(x: string, l: seq<string>, r: seq<string>)
    ensures [x] + (l + r) == ([x] + l) + r
  {
  }

  /** Extending the first piece of l + r extends the first piece of l. */
  lemma FirstPieceExtends(c: string, l: seq<string>, r: seq<string>)
    requires l != []
    ensures [c + (l + r)[0]] + (l + r)[1..] == ([c + l[0]] + l[1..]) + r
  {
    assert (l + r)[0] == l[0];
    assert (l + r)[1..] == l[1..] + r;
  }

  /** One step of Split on a non-empty string. */
  lemma SplitStep(s: string, sep: char)
    requires s != []
    ensures Split(s, sep) == if s[0] == sep then [""] + Split(s[1..], sep)
                             else [[s[0]] + Split(s[1..], sep)[0]] + Split(s[1..], sep)[1..]
  {
  }

  /** A string without the separator splits into itself. */
  lemma {:induction false} SplitPiece(s: string, sep: char)
    requires sep !in s
    ensures Split(s, sep) == [s]
  {
    if s != [] {
      SplitPiece(s[1..], sep);
      assert [s[0]] + s[1..] == s;
    }
  }

  /** A separator-free piece followed by a separator becomes the first piece. */
  lemma {:induction false} SplitPrefix(a: string, b: string, sep: char)
    requires sep !in a
    ensures Split(a + [sep] + b, sep) == [a] + Split(b, sep)
  {
    if a == [] {
      assert a + [sep] + b == [sep] + b;
      assert ([sep] + b)[1..] == b;
    } else {
      SplitPrefix(a[1..], b, sep);
      assert (a + [sep] + b)[1..] == a[1..] + [sep] + b;
      assert [a[0]] + a[1..] == a;
    }
  }

  predicate IsAsciiDigit(c: char)
  {
    '0' <= c <= '9'
  }

  /** The decimal digit for a value below ten. */
  function DigitChar(d: nat): (c: char)
    requires d < 10
    ensures IsAsciiDigit(c)
  {
    ('0' as int + d) as char
  }

  function DigitValue(c: char): (d: nat)
    requires IsAsciiDigit(c)
    ensures d < 10 && DigitChar(d) == c
  {
    (c as int - '0' as int) as nat
  }

  /** Int32.ToString() of a non-negative value: its decimal numeral, no sign, no leading zero. */
  function NatToDecimal(n: nat): (r: string)
    ensures |r| >= 1
    ensures forall k :: 0 <= k < |r| ==> IsAsciiDigit(r[k])
    ensures r[0] == '0' ==> n == 0
  {
    if n < 10 then [DigitChar(n)] else NatToDecimal(n / 10) + [DigitChar(n % 10)]
  }

  /** The value a string of decimal digits denotes. */
  function DecimalValue(s: string): nat
    requires forall k :: 0 <= k < |s| ==> IsAsciiDigit(s[k])
  {
    if s == [] then 0 else DecimalValue(s[..|s| - 1]) * 10 + DigitValue(s[|s| - 1])
  }

  /** Reading back the numeral of n gives n, so different values get different numerals. */
  lemma {:induction false} DecimalRoundTrip(n: nat)
    ensures DecimalValue(NatToDecimal(n)) == n
  {
    if n >= 10 {
      DecimalRoundTrip(n / 10);
      var r := NatToDecimal(n);
      assert r[..|r| - 1] == NatToDecimal(n / 10);
    }
  }

  lemma NatToDecimalInjective(m: nat, n: nat)
    ensures NatToDecimal(m) == NatToDecimal(n) ==> m == n
  {
    DecimalRoundTrip(m);
    DecimalRoundTrip(n);
  }
}
