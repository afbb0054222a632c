/**
 * The text rules of the key-assignment pipeline: how a UI text is cleaned
 * before it is keyed (LocalizationAllInOneTool.ProcessText) and how a
 * single-word text becomes an upper-case key (LocalizationAllInOneTool.GenerateKey).
 */
module KeyText {
  import opened Wrappers
  import opened DotNetText

  // ---------- cleaning: Regex.Replace(source, "<.*?>", "").Trim() ----------

  /**
   * Where a tag opened just before index i closes: the first '>' at or after i,
   * provided no '\n' comes before it (in .NET '.' does not match '\n').
   */
  function TagEnd(s: string, i: nat): (r: Option<nat>)
    requires i <= |s|
    ensures r.Some? ==> i <= r.value < |s| && s[r.value] == '>'
    ensures r.Some? ==> forall k :: i <= k < r.value ==> s[k] != '>' && s[k] != '\n'
    ensures r.None? ==> forall k :: i <= k < |s| && s[k] == '>' ==> '\n' in s[i..k]
    decreases |s| - i
  {
    if i == |s| then None
    else if s[i] == '>' then Some(i)
    else if s[i] == '\n' then assert s[i..i + 1] == [s[i]]; None
    else
      var r := TagEnd(s, i + 1);
      assert forall k :: i + 1 <= k <= |s| ==> s[i..k] == [s[i]] + s[i + 1..k];
      r
  }

  /**
   * Every match of the lazy pattern "<.*?>" removed, scanning left to right:
   * a '<' starts a match that ends at the nearest '>' unless a line break comes first,
   * in which case the '<' is kept and the scan goes on after it.
   */
  function StripTags(s: string): (r: string)
    ensures |r| <= |s|
    decreases |s|
  {
    if s == [] then ""
    else if s[0] == '<' && TagEnd(s, 1).Some? then StripTags(s[TagEnd(s, 1).value + 1..])
    else [s[0]] + StripTags(s[1..])
  }

  /** The cleaned source ProcessText works with: tags stripped, then whitespace trimmed. */
  function CleanText(s: string): (r: string)
    ensures |r| <= |s|
    ensures r != [] ==> !IsWhiteSpace(r[0]) && !IsWhiteSpace(r[|r| - 1])
  {
    Trim(StripTags(s))
  }

  /** Regex.IsMatch(s, @"^\d+$") with \d read as the ASCII digits. */
  predicate IsAllDigits(s: string)
  {
    |s| > 0 && forall k :: 0 <= k < |s| ==> IsAsciiDigit(s[k])
  }

  /** source.Split(' ').Length > 1: the text has more than one word. */
  predicate IsMultiWord(s: string)
  {
    |Split(s, ' ')| > 1
  }

  lemma MultiWordIffSpace(s: string)
    ensures IsMultiWord(s) <==> ' ' in s
  {
    SplitManyIffSeparator(s, ' ');
  }

  /** Text without '<' has no tags to strip. */
  lemma {:induction false} StripTagsNoAngle(s: string)
    requires '<' !in s
    ensures StripTags(s) == s
  {
    if s != [] {
      StripTagsNoAngle(s[1..]);
      assert [s[0]] + s[1..] == s;
    }
  }

  /** Text with no '>' has no tag to close, so every '<' in it is kept ("Score < 10"). */
  lemma {:induction false} StripTagsNoClose(s: string)
    requires '>' !in s
    ensures StripTags(s) == s
  {
    if s != [] {
      assert TagEnd(s, 1).None?;
      assert '>' !in s[1..];
      StripTagsNoClose(s[1..]);
      assert [s[0]] + s[1..] == s;
    }
  }

  /** So cleaning such text only trims it. */
  lemma CleanTextNoAngle(s: string)
    requires '<' !in s
    ensures CleanText(s) == Trim(s)
  {
    StripTagsNoAngle(s);
  }

  /**
   * The first tag is removed as the shortest match: with no '<' before it and
   * no '>' or line break inside it, the text before it is kept and the scan
   * resumes right after its '>'.
   */
  lemma {:induction false} StripTagsFirstTag(p: string, m: string, q: string)
    requires '<' !in p && '>' !in m && '\n' !in m
    ensures StripTags(p + ['<'] + m + ['>'] + q) == p + StripTags(q)
  {
    var s := p + ['<'] + m + ['>'] + q;
    if p == [] {
      assert s == ['<'] + m + ['>'] + q;
      TagEndClosing(s, m);
      assert s[|m| + 2..] == q;
    } else {
      StripTagsFirstTag(p[1..], m, q);
      assert s[1..] == p[1..] + ['<'] + m + ['>'] + q;
      assert [p[0]] + p[1..] == p;
    }
  }

  lemma TagEndClosing(s: string, m: string)
    requires '>' !in m && '\n' !in m
    requires |s| >= |m| + 2 && s[..|m| + 2] == ['<'] + m + ['>']
    ensures TagEnd(s, 1) == Some(|m| + 1)
  {
    assert s[|m| + 1] == '>';
    assert forall k :: 1 <= k < |m| + 1 ==> s[k] == m[k - 1];
  }

  /** Text without '<' in front of the rest passes through tag stripping unchanged. */
  lemma {:induction false} StripTagsNoAnglePrefix(p: string, q: string)
    requires '<' !in p
    ensures StripTags(p + q) == p + StripTags(q)
  {
    if p != [] {
      var s := p + q;
      assert s[0] == p[0] && s[1..] == p[1..] + q;
      StripTagsNoAnglePrefix(p[1..], q);
      assert [p[0]] + (p[1..] + StripTags(q)) == p + StripTags(q);
    } else {
      assert p + q == q;
    }
  }

  /**
   * A '<' whose span reaches a line break before any '>' is not a match: it and
   * everything up to and including the next '>' are kept, and stripping goes on after it.
   */
  lemma StripTagsKeepsMultiLineTag(p: string, m: string, q: string)
    requires '<' !in p && '\n' in m && '<' !in m && '>' !in m
    ensures StripTags(p + ['<'] + m + ['>'] + q) == p + ['<'] + m + ['>'] + StripTags(q)
  {
    var t := ['<'] + m + ['>'] + q;
    assert p + ['<'] + m + ['>'] + q == p + t;
    StripTagsNoAnglePrefix(p, t);
    UnclosedTagKept(m, q);
    AppendAssoc(p, ['<'] + m + ['>'], StripTags(q));
  }

  /** The case of StripTagsKeepsMultiLineTag with nothing before the '<'. */
  lemma UnclosedTagKept(m: string, q: string)
    requires '\n' in m && '<' !in m && '>' !in m
    ensures StripTags(['<'] + m + ['>'] + q) == ['<'] + m + ['>'] + StripTags(q)
  {
    var t := ['<'] + m + ['>'] + q;
    UnclosedTagEnd(t, m);
    assert t[1..] == (m + ['>']) + q;
    StripTagsNoAnglePrefix(m + ['>'], q);
    assert [t[0]] + ((m + ['>']) + StripTags(q)) == ['<'] + m + ['>'] + StripTags(q);
  }

  lemma UnclosedTagEnd(t: string, m: string)
    requires '\n' in m && '>' !in m
    requires |t| >= |m| + 1 && t[..|m| + 1] == ['<'] + m
    ensures TagEnd(t, 1).None?
  {
    var k :| 0 <= k < |m| && m[k] == '\n';
    assert t[k + 1] == '\n';
    assert forall j :: 1 <= j < |m| + 1 ==> t[j] == m[j - 1];
  }

  lemma AppendAssoc(a: string, b: string, c: string)
    ensures a + b + c == a + (b + c)
  {
  }

  // ---------- key generation ----------

  predicate IsAsciiLetterOrDigit(c: char)
  {
    ('a' <= c <= 'z') || ('A' <= c <= 'Z') || IsAsciiDigit(c)
  }

  predicate IsKeySeparator(c: char)
  {
    !IsAsciiLetterOrDigit(c)
  }

  predicate IsUnderscore(c: char)
  {
    c == '_'
  }

  /** No two neighbouring underscores. */
  predicate NoDoubleUnderscore(s: string)
  {
    forall k :: 0 <= k < |s| - 1 ==> !(s[k] == '_' && s[k + 1] == '_')
  }

  /** Regex.Replace(s, "[^a-zA-Z0-9]+", "_"): each maximal run of other characters becomes one '_'. */
  function CollapseSeparators(s: string): (r: string)
    ensures forall k :: 0 <= k < |r| ==> IsAsciiLetterOrDigit(r[k]) || r[k] == '_'
    ensures NoDoubleUnderscore(r)
    ensures r == [] <==> s == []
    ensures r != [] ==> (r[0] == '_' <==> IsKeySeparator(s[0]))
    decreases |s|
  {
    if s == [] then []
    else if IsAsciiLetterOrDigit(s[0]) then [s[0]] + CollapseSeparators(s[1..])
    else ['_'] + CollapseSeparators(TrimStartBy(s[1..], IsKeySeparator))
  }

  /** ToUpperInvariant on ASCII: lower-case letters mapped to upper case, everything else kept. */
  function UpperChar(c: char): char
  {
    if 'a' <= c <= 'z' then (c as int - 32) as char else c
  }

  /**
   * ToUpperInvariant restricted to ASCII: no lower-case ASCII letter is left, each one
   * becomes the upper-case letter 32 code points below it, and every other character is kept.
   */
  function UpperAscii(s: string): (r: string)
    ensures |r| == |s|
    ensures forall k :: 0 <= k < |r| ==> !('a' <= r[k] <= 'z')
    ensures forall k :: 0 <= k < |s| && !('a' <= s[k] <= 'z') ==> r[k] == s[k]
    ensures forall k :: 0 <= k < |s| && 'a' <= s[k] <= 'z' ==> 'A' <= r[k] <= 'Z' && r[k] as int + 32 == s[k] as int
  {
    seq(|s|, k requires 0 <= k < |s| => UpperChar(s[k]))
  }

  /** Upper-casing twice is upper-casing once. */
  lemma UpperAsciiIdempotent(s: string)
    ensures UpperAscii(UpperAscii(s)) == UpperAscii(s)
  {
  }

  /** The shape every generated key has: A-Z, 0-9 and '_' only, no '_' at an end, no "__". */
  predicate KeyShaped(s: string)
  {
    (forall k :: 0 <= k < |s| ==> ('A' <= s[k] <= 'Z') || IsAsciiDigit(s[k]) || s[k] == '_')
    && (s != [] ==> s[0] != '_' && s[|s| - 1] != '_')
    && NoDoubleUnderscore(s)
  }

  /** GenerateKey: separators collapsed to '_', '_' trimmed from both ends, then upper-cased. */
  function GenerateKey(source: string): (r: string)
    ensures KeyShaped(r)
  {
    var collapsed := CollapseSeparators(source);
    var trimmed := TrimBy(collapsed, IsUnderscore);
    TrimmedKeepsKeyChars(trimmed, collapsed);
    UpperKeepsKeyShape(trimmed);
    UpperAscii(trimmed)
  }

  /** Trimming '_' off collapsed text leaves letters, digits and single underscores, none at an end. */
  lemma TrimmedKeepsKeyChars(t: string, c: string)
    requires forall k :: 0 <= k < |c| ==> IsAsciiLetterOrDigit(c[k]) || c[k] == '_'
    requires NoDoubleUnderscore(c)
    requires t == TrimBy(c, IsUnderscore)
    ensures forall k :: 0 <= k < |t| ==> IsAsciiLetterOrDigit(t[k]) || t[k] == '_'
    ensures NoDoubleUnderscore(t)
    ensures t != [] ==> t[0] != '_' && t[|t| - 1] != '_'
  {
    var i :| SliceAt(t, c, i);
    forall k | 0 <= k < |t|
      ensures t[k] == c[i + k]
    {
    }
    forall k | 0 <= k < |t| - 1
      ensures !(t[k] == '_' && t[k + 1] == '_')
    {
      assert t[k] == c[i + k] && t[k + 1] == c[i + k + 1];
    }
  }

  /** Upper-casing such text gives a key-shaped string. */
  lemma UpperKeepsKeyShape(t: string)
    requires forall k :: 0 <= k < |t| ==> IsAsciiLetterOrDigit(t[k]) || t[k] == '_'
    requires NoDoubleUnderscore(t)
    requires t != [] ==> t[0] != '_' && t[|t| - 1] != '_'
    ensures KeyShaped(UpperAscii(t))
  {
  }

  /** Key-shaped text is its own key. */
  lemma GenerateKeyFixesKeys(s: string)
    requires KeyShaped(s)
    ensures GenerateKey(s) == s
  {
    CollapseFixesKeyChars(s);
    assert TrimBy(s, IsUnderscore) == s;
    forall k | 0 <= k < |s|
      ensures UpperChar(s[k]) == s[k]
    {
    }
    assert UpperAscii(s) == s;
  }

  lemma {:induction false} CollapseFixesKeyChars(s: string)
    requires forall k :: 0 <= k < |s| ==> IsAsciiLetterOrDigit(s[k]) || s[k] == '_'
    requires NoDoubleUnderscore(s)
    ensures CollapseSeparators(s) == s
  {
    if s != [] {
      CollapseFixesKeyChars(s[1..]);
      if !IsAsciiLetterOrDigit(s[0]) {
        assert TrimStartBy(s[1..], IsKeySeparator) == s[1..];
      }
      assert [s[0]] + s[1..] == s;
    }
  }

  /** Generating a key from a key changes nothing. */
  lemma GenerateKeyIdempotent(s: string)
    ensures GenerateKey(GenerateKey(s)) == GenerateKey(s)
  {
    GenerateKeyFixesKeys(GenerateKey(s));
  }

  /** Generated keys never hold a space. */
  lemma GenerateKeyHasNoSpace(s: string)
    ensures ' ' !in GenerateKey(s)
  {
  }

  /** Text made only of separators gets the empty key. */
  lemma GenerateKeyOfSeparators(s: string)
    requires forall k :: 0 <= k < |s| ==> IsKeySeparator(s[k])
    ensures GenerateKey(s) == ""
  {
    if s != [] {
      assert CollapseSeparators(s) == ['_'] + CollapseSeparators(TrimStartBy(s[1..], IsKeySeparator));
      assert TrimStartBy(s[1..], IsKeySeparator) == [];
    }
  }

  /** A word of letters and digits passes through the collapsing unchanged. */
  lemma {:induction false} CollapseWord(w: string, rest: string)
    requires forall k :: 0 <= k < |w| ==> IsAsciiLetterOrDigit(w[k])
    ensures CollapseSeparators(w + rest) == w + CollapseSeparators(rest)
  {
    if w != [] {
      var s, tail := w + rest, w[1..];
      assert s[0] == w[0] && IsAsciiLetterOrDigit(s[0]);
      assert s[1..] == tail + rest;
      CollapseStep(s);
      CollapseWord(tail, rest);
      AppendAssoc([w[0]], tail, CollapseSeparators(rest));
      assert [w[0]] + tail == w;
    } else {
      assert w + rest == rest;
    }
  }

  /** A run of separators before a letter, a digit or the end becomes a single '_'. */
  lemma CollapseRun(run: string, rest: string)
    requires run != [] && forall k :: 0 <= k < |run| ==> IsKeySeparator(run[k])
    requires rest == [] || IsAsciiLetterOrDigit(rest[0])
    ensures CollapseSeparators(run + rest) == ['_'] + CollapseSeparators(rest)
  {
    var s := run + rest;
    assert s[0] == run[0] && s[1..] == run[1..] + rest;
    CollapseStep(s);
    TrimStartOfRun(run[1..], rest, IsKeySeparator);
  }

  /** One step of CollapseSeparators on a non-empty string. */
  lemma CollapseStep(s: string)
    requires s != []
    ensures CollapseSeparators(s) == if IsAsciiLetterOrDigit(s[0]) then [s[0]] + CollapseSeparators(s[1..])
                                     else ['_'] + CollapseSeparators(TrimStartBy(s[1..], IsKeySeparator))
  {
  }

  /** Two words joined by a run of separators collapse to the words around one '_'. */
  lemma CollapseTwoWords(a: string, run: string, b: string)
    requires forall k :: 0 <= k < |a| ==> IsAsciiLetterOrDigit(a[k])
    requires run != [] && forall k :: 0 <= k < |run| ==> IsKeySeparator(run[k])
    requires b != [] && forall k :: 0 <= k < |b| ==> IsAsciiLetterOrDigit(b[k])
    ensures CollapseSeparators(a + run + b) == a + ['_'] + b
  {
    assert a + run + b == a + (run + b);
    CollapseWord(a, run + b);
    CollapseRun(run, b);
    CollapseWord(b, []);
    assert b + [] == b;
  }

  /** When collapsing leaves no '_' at either end, the key is the collapsed text upper-cased. */
  lemma GenerateKeyOfCollapsed(s: string, collapsed: string)
    requires CollapseSeparators(s) == collapsed
    requires collapsed != [] && collapsed[0] != '_' && collapsed[|collapsed| - 1] != '_'
    ensures GenerateKey(s) == UpperAscii(collapsed)
  {
    assert TrimBy(collapsed, IsUnderscore) == collapsed;
  }

  /** Two words joined by any run of separators give both words upper-cased around one '_'. */
  lemma GenerateKeyOfTwoWords(a: string, run: string, b: string)
    requires a != [] && forall k :: 0 <= k < |a| ==> IsAsciiLetterOrDigit(a[k])
    requires run != [] && forall k :: 0 <= k < |run| ==> IsKeySeparator(run[k])
    requires b != [] && forall k :: 0 <= k < |b| ==> IsAsciiLetterOrDigit(b[k])
    ensures GenerateKey(a + run + b) == UpperAscii(a) + "_" + UpperAscii(b)
  {
    CollapseTwoWords(a, run, b);
    var collapsed := a + ['_'] + b;
    assert collapsed[0] == a[0] && collapsed[|collapsed| - 1] == b[|b| - 1];
    GenerateKeyOfCollapsed(a + run + b, collapsed);
    UpperAroundUnderscore(a, b);
  }

  lemma UpperAroundUnderscore(a: string, b: string)
    ensures UpperAscii(a + ['_'] + b) == UpperAscii(a) + "_" + UpperAscii(b)
  {
    UpperAsciiAppend(a + ['_'], b);
    UpperAsciiAppend(a, ['_']);
    assert UpperAscii(['_']) == "_";
  }

  /** Upper-casing works character by character, so it distributes over concatenation. */
  lemma UpperAsciiAppend(x: string, y: string)
    ensures UpperAscii(x + y) == UpperAscii(x) + UpperAscii(y)
  {
    var l, r := UpperAscii(x + y), UpperAscii(x) + UpperAscii(y);
    assert |l| == |r|;
    forall k | 0 <= k < |l|
      ensures l[k] == r[k]
    {
      if k < |x| {
        assert (x + y)[k] == x[k];
      } else {
        assert (x + y)[k] == y[k - |x|];
      }
    }
  }

  /** Punctuation-only text gets the empty key. */
  lemma EmptyKeyForPunctuation()
    ensures GenerateKey("!!!") == ""
  {
    GenerateKeyOfSeparators("!!!");
  }

  /** Markup-only text cleans to the empty string, which is not digits-only, so it is keyed with the empty key. */
  lemma EmptyKeyForMarkup()
    ensures CleanText("<b></b>") == "" && !IsAllDigits(CleanText("<b></b>"))
    ensures GenerateKey(CleanText("<b></b>")) == ""
  {
    var inner := "</b>";
    StripTagsFirstTag("", "/b", "");
    assert "" + ['<'] + "/b" + ['>'] + "" == inner;
    StripTagsFirstTag("", "b", inner);
    assert "" + ['<'] + "b" + ['>'] + inner == "<b></b>";
    assert StripTags("<b></b>") == "";
    GenerateKeyOfSeparators("");
  }
}
