/**
 * The key-assignment pipeline of the "Run Full Localization Pipeline" editor
 * command: every legacy Text and TextMeshPro text in the scene gets a
 * localization component, an empty key field on that component gets a key
 * made from the text, and each distinct text is listed once in an export
 * prompt as "KEY = text".
 */
module AllInOneTool {
  import opened Wrappers
  import opened DotNetText
  import opened KeyText

  /** The serialized field names tried, in this order, on a localization component. */
  const PossibleKeyFieldNames: seq<string> :=
    ["localizationKey", "key", "localizationID", "localizationId", "entryKey"]

  /** The export prompt's fixed opening, with its line breaks written as "\n". */
  const PromptHeader: string :=
    "Generate ONLY valid JSON for a game localization file.\n"
    + "\n"
    + "Constraints:\n"
    + "- No markdown\n"
    + "- No comments\n"
    + "- No explanations\n"
    + "- No trailing commas\n"
    + "- Preserve key order\n"
    + "- Use uppercase keys\n"
    + "\n"
    + "Structure:\n"
    + "{\n"
    + "  \"KEY\": {\n"
    + "    \"en\": \"English\",\n"
    + "    \"pt-BR\": \"Portuguese (Brazil)\",\n"
    + "    \"ru\": \"Russian\",\n"
    + "    \"sp\": \"Spanish\",\n"
    + "    \"fr\": \"French\",\n"
    + "    \"ar\": \"Arabic\"\n"
    + "  }\n"
    + "}\n"
    + "\n"
    + "Entries:\n"

  // ---------- components and their serialized fields ----------

  /** What SerializedObject.FindProperty reports for a name: a string property with its value, or another type. */
  datatype SerializedValue = StringValue(value: string) | OtherValue

  /** A LocalizedLegacyText or LocalizedTMPText component, seen through its serialized properties. */
  class LocalizedComponent {
    var serialized: map<string, SerializedValue>

    constructor (fields: map<string, SerializedValue>)
      ensures serialized == fields
    {
      serialized := fields;
    }

    /** Writes a string value to the named serialized property (SerializedProperty.stringValue). */
    method SetString(name: string, value: string)
      modifies this`serialized
      ensures serialized == old(serialized)[name := StringValue(value)]
    {
      serialized := serialized[name := StringValue(value)];
    }
  }

  predicate IsStringField(props: map<string, SerializedValue>, name: string)
  {
    name in props && props[name].StringValue?
  }

  /** The index of the first name at or after `from` that is a string property. */
  function FirstStringField(props: map<string, SerializedValue>, names: seq<string>, from: nat): (r: Option<nat>)
    requires from <= |names|
    ensures r.Some? ==> from <= r.value < |names| && IsStringField(props, names[r.value])
    ensures r.Some? ==> forall j :: from <= j < r.value ==> !IsStringField(props, names[j])
    ensures r.None? ==> forall j :: from <= j < |names| ==> !IsStringField(props, names[j])
    decreases |names| - from
  {
    if from == |names| then None
    else if IsStringField(props, names[from]) then Some(from)
    else FirstStringField(props, names, from + 1)
  }

  /** Writing a string into a string property leaves the first string property where it was. */
  lemma {:induction false} FirstStringFieldAfterWrite(props: map<string, SerializedValue>, names: seq<string>, from: nat, field: string, v: string)
    requires from <= |names|
    requires IsStringField(props, field)
    ensures FirstStringField(props[field := StringValue(v)], names, from) == FirstStringField(props, names, from)
    decreases |names| - from
  {
    if from < |names| {
      FirstStringFieldAfterWrite(props, names, from + 1, field, v);
    }
  }

  // ---------- what ProcessText decides ----------

  /** ProcessText's outcome for one non-null component: leave it, or write a key into `field` for `cleaned`. */
  datatype Decision = Skip | Assign(field: string, cleaned: string)

  /**
   * Blank text, text that cleans to digits only, a component without a string key
   * field, and a component whose first string key field is already set are left
   * alone; otherwise the first string key field gets a key for the cleaned text.
   */
  function Decide(source: Option<string>, props: map<string, SerializedValue>): (d: Decision)
    ensures d.Assign? ==> source.Some? && !IsNullOrWhiteSpace(source)
    ensures d.Assign? ==> d.cleaned == CleanText(source.value) && !IsAllDigits(d.cleaned)
    ensures d.Assign? ==> d.field in props && props[d.field] == StringValue("")
    ensures d.Assign? ==> exists i :: FirstStringField(props, PossibleKeyFieldNames, 0) == Some(i) && PossibleKeyFieldNames[i] == d.field
  {
    if IsNullOrWhiteSpace(source) then Skip
    else
      var cleaned := CleanText(source.value);
      if IsAllDigits(cleaned) then Skip
      else
        match FirstStringField(props, PossibleKeyFieldNames, 0)
        case None => Skip
        case Some(i) =>
          var field := PossibleKeyFieldNames[i];
          if props[field].value != "" then Skip else Assign(field, cleaned)
  }

  /** The facts ProcessText has established when it reaches the key assignment. */
  lemma DecideAssigns(source: Option<string>, props: map<string, SerializedValue>, i: nat)
    requires !IsNullOrWhiteSpace(source) && !IsAllDigits(CleanText(source.value))
    requires FirstStringField(props, PossibleKeyFieldNames, 0) == Some(i)
    requires props[PossibleKeyFieldNames[i]] == StringValue("")
    ensures Decide(source, props) == Assign(PossibleKeyFieldNames[i], CleanText(source.value))
  {
  }

  /**
   * A LocalizedLegacyText serializes a single string field, localizationKey. Freshly
   * added, it is empty, so any text that is not blank and does not clean to digits is keyed there.
   */
  lemma FreshLegacyTextIsKeyed(s: string)
    requires !IsNullOrWhiteSpace(Some(s)) && !IsAllDigits(CleanText(s))
    ensures Decide(Some(s), map["localizationKey" := StringValue("")]) == Assign("localizationKey", CleanText(s))
  {
    var props := map["localizationKey" := StringValue("")];
    assert IsStringField(props, PossibleKeyFieldNames[0]);
    assert FirstStringField(props, PossibleKeyFieldNames, 0) == Some(0);
  }

  /** The key given to cleaned text: the counter's numeral for several words, GenerateKey for one. */
  function KeyFor(cleaned: string, counter: nat): (key: string)
    ensures ' ' in cleaned ==> key == NatToDecimal(counter)
    ensures ' ' !in cleaned ==> key == GenerateKey(cleaned) && KeyShaped(key)
    ensures ' ' !in key
  {
    MultiWordIffSpace(cleaned);
    if IsMultiWord(cleaned) then NatToDecimal(counter) else GenerateKey(cleaned)
  }

  /**
   * A multi-word text gets a different key at every counter value, so each of its
   * occurrences is keyed afresh; a single-word text always gets the same key.
   */
  lemma KeysOfRepeatedText(cleaned: string, m: nat, n: nat)
    ensures ' ' in cleaned && m != n ==> KeyFor(cleaned, m) != KeyFor(cleaned, n)
    ensures ' ' !in cleaned ==> KeyFor(cleaned, m) == KeyFor(cleaned, n)
  {
    NatToDecimalInjective(m, n);
  }

  /**
   * Processing the same text again after a key was written: a non-empty key makes
   * the component be skipped, but an empty key leaves the field empty, so the
   * component is keyed once more.
   */
  lemma ReprocessAfterAssign(source: Option<string>, props: map<string, SerializedValue>, key: string)
    requires Decide(source, props).Assign?
    ensures var d := Decide(source, props);
            var after := props[d.field := StringValue(key)];
            Decide(source, after) == if key == "" then d else Skip
  {
    var d := Decide(source, props);
    FirstStringFieldAfterWrite(props, PossibleKeyFieldNames, 0, d.field, key);
  }

  // ---------- export lines ----------

  /** One export entry: $"{key} = {source}". */
  function ExportLine(key: string, source: string): string
  {
    key + " = " + source
  }

  /** Reads an export line back: the key ends at the first space, which must start " = ". */
  function ParseExportLine(line: string): Option<(string, string)>
  {
    match IndexOf(line, ' ')
    case None => None
    case Some(i) =>
      if i + 3 <= |line| && line[i..i + 3] == " = " then Some((line[..i], line[i + 3..])) else None
  }

  /** An export line gives back its key and source whenever the key has no space, as every assigned key does. */
  lemma ExportLineRoundTrip(key: string, source: string)
    requires ' ' !in key
    ensures ParseExportLine(ExportLine(key, source)) == Some((key, source))
  {
    var line := ExportLine(key, source);
    assert line[|key|] == ' ';
    assert forall k :: 0 <= k < |key| ==> line[k] == key[k];
    var r := IndexOf(line, ' ');
    assert r.Some? && r.value == |key|;
    assert line[..|key|] == key;
    assert line[|key|..|key| + 3] == " = ";
    assert line[|key| + 3..] == source;
  }

  // ---------- export content: WriteExportFile's StringBuilder ----------

  /**
   * The export file's text for a given header: the header and the newline string,
   * then every export line in order, each followed by the newline string. The file
   * itself uses PromptHeader; the lemmas below hold for any header.
   */
  function ExportContent(header: string, lines: seq<string>, nl: string): string
  {
    if lines == [] then header + nl
    else ExportContent(header, lines[..|lines| - 1], nl) + lines[|lines| - 1] + nl
  }

  /** The entries part of the content, built from the front. */
  function EntriesText(lines: seq<string>, nl: string): string
  {
    if lines == [] then "" else lines[0] + nl + EntriesText(lines[1..], nl)
  }

  lemma {:induction false} EntriesTextSnoc(lines: seq<string>, line: string, nl: string)
    ensures EntriesText(lines + [line], nl) == EntriesText(lines, nl) + line + nl
  {
    if lines != [] {
      EntriesTextSnoc(lines[1..], line, nl);
      assert (lines + [line])[1..] == lines[1..] + [line];
    }
  }

  /** The content is the header and its newline followed by each line and a newline, front to back. */
  lemma {:induction false} ExportContentIsHeaderThenEntries(header: string, lines: seq<string>, nl: string)
    ensures ExportContent(header, lines, nl) == header + nl + EntriesText(lines, nl)
    decreases |lines|
  {
    if lines != [] {
      var init, last := lines[..|lines| - 1], lines[|lines| - 1];
      assert init + [last] == lines;
      ExportContentIsHeaderThenEntries(header, init, nl);
      EntriesTextSnoc(init, last, nl);
      AppendAssoc(header + nl, EntriesText(init, nl), last + nl);
    }
  }

  /**
   * With "\n" as the newline and no line break inside an entry, reading the content
   * back line by line gives the header's lines, then the export lines in order,
   * then the empty piece after the final newline.
   */
  lemma {:induction false} ExportContentSplitsIntoLines(header: string, lines: seq<string>)
    requires forall k :: 0 <= k < |lines| ==> '\n' !in lines[k]
    ensures Split(ExportContent(header, lines, "\n"), '\n') == Split(header, '\n') + lines + [""]
    decreases |lines|
  {
    if lines == [] {
      SplitAroundSeparator(header, "", '\n');
      assert header + "\n" == header + ['\n'] + "";
    } else {
      var init, last := lines[..|lines| - 1], lines[|lines| - 1];
      var before := ExportContent(header, init, "\n");
      ExportContentSplitsIntoLines(header, init);
      ExportContentEndsWithNewline(header, init);
      SplitAfterLine(before, last);
      ReplaceLastPiece(Split(header, '\n'), init, last);
      assert init + [last] == lines;
    }
  }

  /** After text ending in a line break, a line and a line break replace the final empty piece by the line, then an empty piece. */
  lemma SplitAfterLine(before: string, last: string)
    requires before != [] && before[|before| - 1] == '\n' && '\n' !in last
    ensures var p := Split(before, '\n');
            Split(before + last + "\n", '\n') == p[..|p| - 1] + [last, ""]
  {
    var stem := before[..|before| - 1];
    TerminatedText(before, stem, last);
    SplitAroundSeparator(stem, "", '\n');
    DropLast(Split(stem, '\n'), "");
    SplitTerminatedLine(stem, last);
  }

  /** Text ending in a line break is its stem and the break; a line and a break after it regroup around that break. */
  lemma TerminatedText(before: string, stem: string, last: string)
    requires before != [] && before[|before| - 1] == '\n' && stem == before[..|before| - 1]
    ensures before == stem + ['\n'] + ""
    ensures before + last + "\n" == stem + ['\n'] + (last + "\n")
  {
    assert before == stem + ['\n'] + "";
  }

  lemma DropLast(x: seq<string>, y: string)
    ensures (x + [y])[..|x + [y]| - 1] == x
  {
    assert (x + [y])[..|x|] == x;
  }

  lemma ReplaceLastPiece(h: seq<string>, init: seq<string>, last: string)
    ensures var p := h + init + [""]; p[..|p| - 1] + [last, ""] == h + (init + [last]) + [""]
  {
    var p := h + init + [""];
    assert p[..|p| - 1] == h + init;
  }

  /** A line without a line break, written after a line break and ended by one, adds itself and an empty piece. */
  lemma SplitTerminatedLine(stem: string, last: string)
    requires '\n' !in last
    ensures Split(stem + ['\n'] + (last + "\n"), '\n') == Split(stem, '\n') + [last, ""]
  {
    assert last + "\n" == last + ['\n'] + "";
    SplitAroundSeparator(stem, last + "\n", '\n');
    SplitAroundSeparator(last, "", '\n');
    SplitPiece(last, '\n');
  }

  lemma ExportContentEndsWithNewline(header: string, lines: seq<string>)
    ensures var c := ExportContent(header, lines, "\n"); |c| >= 1 && c[|c| - 1] == '\n'
  {
  }

  // ---------- the pipeline's state ----------

  /** One export entry as the pipeline produced it. */
  datatype Entry = Entry(key: string, source: string)

  /** Adding or removing localization components: the GameObject a text element lives on. */
  class GameObject {
    const hasText: bool
    const hasTmp: bool
    var legacyText: LocalizedComponent?
    var tmpText: LocalizedComponent?

    constructor (hasText: bool, hasTmp: bool, legacyText: LocalizedComponent?, tmpText: LocalizedComponent?)
      ensures this.hasText == hasText && this.hasTmp == hasTmp
      ensures this.legacyText == legacyText && this.tmpText == tmpText
    {
      this.hasText, this.hasTmp := hasText, hasTmp;
      this.legacyText, this.tmpText := legacyText, tmpText;
    }
  }

  /** How many components AddLocalizationIfMissing adds: one per text kind whose localized component is absent. */
  function MissingComponents(hasText: bool, hasLegacy: bool, hasTmp: bool, hasLocalizedTmp: bool): (n: nat)
    ensures n <= 2
    ensures n == 0 <==> (hasText ==> hasLegacy) && (hasTmp ==> hasLocalizedTmp)
  {
    (if hasText && !hasLegacy then 1 else 0) + (if hasTmp && !hasLocalizedTmp then 1 else 0)
  }

  /**
   * Gives a GameObject with a Text its LocalizedLegacyText and one with a TextMeshPro
   * text its LocalizedTMPText when missing, counting each addition. A fresh component
   * starts with the serialized fields of its type, given as legacyFields and tmpFields.
   */
  method AddLocalizationIfMissing(go: GameObject, count: nat,
                                  legacyFields: map<string, SerializedValue>,
                                  tmpFields: map<string, SerializedValue>) returns (newCount: nat)
    modifies go
    ensures go.hasText ==> go.legacyText != null
    ensures go.hasTmp ==> go.tmpText != null
    ensures old(go.legacyText) != null || !go.hasText ==> go.legacyText == old(go.legacyText)
    ensures old(go.tmpText) != null || !go.hasTmp ==> go.tmpText == old(go.tmpText)
    ensures go.legacyText != old(go.legacyText) ==> fresh(go.legacyText) && go.legacyText.serialized == legacyFields
    ensures go.tmpText != old(go.tmpText) ==> fresh(go.tmpText) && go.tmpText.serialized == tmpFields
    ensures newCount == count + MissingComponents(go.hasText, old(go.legacyText) != null, go.hasTmp, old(go.tmpText) != null)
    ensures MissingComponents(go.hasText, go.legacyText != null, go.hasTmp, go.tmpText != null) == 0
  {
    newCount := count;
    if go.hasText && go.legacyText == null {
      go.legacyText := new LocalizedComponent(legacyFields);
      newCount := newCount + 1;
    }
    if go.hasTmp && go.tmpText == null {
      go.tmpText := new LocalizedComponent(tmpFields);
      newCount := newCount + 1;
    }
  }

  /** A text element found in the scene: its current text (possibly null) and its GameObject. */
  datatype TextElement = TextElement(text: Option<string>, go: GameObject)

  /** A root GameObject's legacy Text and TextMeshPro elements, in GetComponentsInChildren order. */
  datatype Root = Root(texts: seq<TextElement>, tmps: seq<TextElement>)

  /** The GameObjects of the roots' Text elements. */
  function TextObjects(roots: seq<Root>): set<GameObject>
  {
    set i, j | 0 <= i < |roots| && 0 <= j < |roots[i].texts| :: roots[i].texts[j].go
  }

  /** The GameObjects of the roots' TextMeshPro elements. */
  function TmpObjects(roots: seq<Root>): set<GameObject>
  {
    set i, j | 0 <= i < |roots| && 0 <= j < |roots[i].tmps| :: roots[i].tmps[j].go
  }

  function SceneObjects(roots: seq<Root>): set<GameObject>
  {
    TextObjects(roots) + TmpObjects(roots)
  }

  /** Every Text element lives on a GameObject with a Text, every TextMeshPro element on one with a TextMeshPro text. */
  predicate WellFormedScene(roots: seq<Root>)
  {
    (forall g :: g in TextObjects(roots) ==> g.hasText) && (forall g :: g in TmpObjects(roots) ==> g.hasTmp)
  }

  /** The localization components currently on the given GameObjects. */
  function ComponentsOf(objs: set<GameObject>): set<LocalizedComponent?>
    reads objs
  {
    (set g | g in objs :: g.legacyText) + (set g | g in objs :: g.tmpText)
  }

  /** The GameObjects among objs with a Text but no LocalizedLegacyText. */
  function LacksLegacy(objs: set<GameObject>): set<GameObject>
    reads objs
  {
    set g | g in objs && g.hasText && g.legacyText == null
  }

  /** The GameObjects among objs with a TextMeshPro text but no LocalizedTMPText. */
  function LacksTmp(objs: set<GameObject>): set<GameObject>
    reads objs
  {
    set g | g in objs && g.hasTmp && g.tmpText == null
  }

  /** Neither localization component is missing from g. */
  predicate Complete(g: GameObject)
    reads g
  {
    MissingComponents(g.hasText, g.legacyText != null, g.hasTmp, g.tmpText != null) == 0
  }

  /**
   * When one GameObject of objs becomes complete and no other one changes its
   * components, it leaves both sets of objects lacking a component, and the
   * components it was given are exactly those it lacked.
   */
  twostate lemma LacksStep(objs: set<GameObject>, new go: GameObject)
    requires go in objs && Complete(go)
    requires forall g :: g in objs && g != go ==> g.legacyText == old(g.legacyText) && g.tmpText == old(g.tmpText)
    ensures |LacksLegacy(objs)| + |LacksTmp(objs)| + MissingComponents(go.hasText, old(go.legacyText) != null, go.hasTmp, old(go.tmpText) != null)
            == |old(LacksLegacy(objs))| + |old(LacksTmp(objs))|
  {
    var l, t := old(LacksLegacy(objs)), old(LacksTmp(objs));
    var l', t' := LacksLegacy(objs), LacksTmp(objs);
    assert go in l <==> go.hasText && old(go.legacyText) == null;
    assert go in t <==> go.hasTmp && old(go.tmpText) == null;
    forall g | g in l'
      ensures g in l - {go}
    {
    }
    forall g | g in l - {go}
      ensures g in l'
    {
    }
    forall g | g in t'
      ensures g in t - {go}
    {
    }
    forall g | g in t - {go}
      ensures g in t'
    {
    }
    assert l' == l - {go};
    assert t' == t - {go};
    CountRemove(l, go);
    CountRemove(t, go);
  }

  /** Each element's GameObject is among the scene's, with the text kind of its element. */
  lemma SceneMembers(roots: seq<Root>)
    requires WellFormedScene(roots)
    ensures forall i, k :: 0 <= i < |roots| && 0 <= k < |roots[i].texts| ==>
      roots[i].texts[k].go in SceneObjects(roots) && roots[i].texts[k].go.hasText
    ensures forall i, k :: 0 <= i < |roots| && 0 <= k < |roots[i].tmps| ==>
      roots[i].tmps[k].go in SceneObjects(roots) && roots[i].tmps[k].go.hasTmp
  {
    assert forall i, k :: 0 <= i < |roots| && 0 <= k < |roots[i].texts| ==> roots[i].texts[k].go in TextObjects(roots);
    assert forall i, k :: 0 <= i < |roots| && 0 <= k < |roots[i].tmps| ==> roots[i].tmps[k].go in TmpObjects(roots);
  }

  /** When every element's GameObject is complete, so is every GameObject of the scene. */
  lemma SceneComplete(roots: seq<Root>)
    requires forall i, k :: 0 <= i < |roots| && 0 <= k < |roots[i].texts| ==> Complete(roots[i].texts[k].go)
    requires forall i, k :: 0 <= i < |roots| && 0 <= k < |roots[i].tmps| ==> Complete(roots[i].tmps[k].go)
    ensures forall g :: g in SceneObjects(roots) ==> Complete(g)
  {
  }

  /** When every GameObject of objs is complete, none lacks a component. */
  lemma NoneLacking(objs: set<GameObject>)
    requires forall g :: g in objs ==> Complete(g)
    ensures LacksLegacy(objs) == {} && LacksTmp(objs) == {}
  {
    assert forall g :: g in LacksLegacy(objs) ==> g in objs && !Complete(g);
    assert forall g :: g in LacksTmp(objs) ==> g in objs && !Complete(g);
  }

  /** Removing x from m takes one away exactly when x is in m. */
  lemma CountRemove<T>(m: set<T>, x: T)
    ensures |m - {x}| == |m| - (if x in m then 1 else 0)
  {
    if x !in m {
      assert m - {x} == m;
    }
  }

  /**
   * A component reference over a run: kept as it was, or, where there was none,
   * possibly a component created during the run.
   */
  twostate predicate Kept(before: LocalizedComponent?, new after: LocalizedComponent?)
  {
    after == before || (before == null && fresh(after))
  }

  /** The number of Text and TextMeshPro elements under the roots. */
  function ElementCount(roots: seq<Root>): nat
  {
    if roots == [] then 0 else |roots[0].texts| + |roots[0].tmps| + ElementCount(roots[1..])
  }

  /**
   * The tool's state across ProcessText calls: the numeric key counter (static in
   * the tool, reset by every run), and the run's set of seen texts and list of export lines.
   */
  class Pipeline {
    var numericKeyCounter: nat
    var seen: set<string>
    var exportLines: seq<string>
    /** The key and cleaned text behind each export line. */
    ghost var entries: seq<Entry>

    ghost predicate Valid()
      reads this
    {
      ExportInvariant(seen, exportLines, entries)
    }

    /** The static state before any run: counter 0, nothing seen or exported. */
    constructor ()
      ensures Valid()
      ensures numericKeyCounter == 0 && seen == {} && exportLines == [] && entries == []
    {
      numericKeyCounter := 0;
      seen := {};
      exportLines := [];
      entries := [];
    }

    /**
     * Every export line reads back as the key and source of its entry, no two lines
     * carry the same source, and there are as many lines as seen texts.
     */
    lemma ExportLinesHaveDistinctSources()
      requires Valid()
      ensures forall i :: 0 <= i < |exportLines| ==> ParseExportLine(exportLines[i]) == Some((entries[i].key, entries[i].source))
      ensures forall i, j :: 0 <= i < j < |exportLines| ==> ParseExportLine(exportLines[i]).value.1 != ParseExportLine(exportLines[j]).value.1
      ensures |exportLines| == |seen|
    {
      WellKeyedFacts(entries);
      forall i | 0 <= i < |exportLines|
        ensures ParseExportLine(exportLines[i]) == Some((entries[i].key, entries[i].source))
      {
        ExportLineRoundTrip(entries[i].key, entries[i].source);
      }
      WellKeyedSourcesCount(entries);
    }

    /**
     * ProcessText: decides as Decide does for the component's fields; on Assign it
     * writes the key, advances the counter for a multi-word text, and exports
     * "key = source" when the cleaned text was not seen before. Returns 1 exactly
     * when a key was written.
     */
    method ProcessText(source: Option<string>, comp: LocalizedComponent?) returns (n: nat)
      requires Valid()
      modifies this, comp
      ensures Valid()
      ensures n <= 1
      ensures old(numericKeyCounter) <= numericKeyCounter <= old(numericKeyCounter) + n
      ensures |exportLines| <= old(|exportLines|) + n
      ensures comp == null ==>
        n == 0 && numericKeyCounter == old(numericKeyCounter) && seen == old(seen) && exportLines == old(exportLines)
      ensures comp != null ==>
        var d := Decide(source, old(comp.serialized));
        (d.Skip? ==> n == 0 && numericKeyCounter == old(numericKeyCounter) && seen == old(seen)
                     && exportLines == old(exportLines) && comp.serialized == old(comp.serialized))
        && (d.Assign? ==>
              var key := KeyFor(d.cleaned, old(numericKeyCounter));
              n == 1
              && comp.serialized == old(comp.serialized)[d.field := StringValue(key)]
              && numericKeyCounter == old(numericKeyCounter) + (if ' ' in d.cleaned then 1 else 0)
              && seen == old(seen) + {d.cleaned}
              && exportLines == if d.cleaned in old(seen) then old(exportLines)
                           else old(exportLines) + [ExportLine(key, d.cleaned)])
    {
      n := 0;
      if comp == null || IsNullOrWhiteSpace(source) {
        return;
      }
      ghost var d := Decide(source, comp.serialized);
      var cleaned := CleanText(source.value);
      if IsAllDigits(cleaned) {
        assert d == Skip;
        return;
      }
      // the foreach over PossibleKeyFieldNames: skip names that are not string properties
      var names := PossibleKeyFieldNames;
      var i := 0;
      while i < |names| && !IsStringField(comp.serialized, names[i])
        invariant 0 <= i <= |names|
        invariant FirstStringField(comp.serialized, names, i) == FirstStringField(comp.serialized, names, 0)
      {
        i := i + 1;
      }
      if i == |names| {
        assert d == Skip;
        return;
      }
      // the first string property decides
      assert FirstStringField(comp.serialized, names, 0) == Some(i);
      var field := names[i];
      if comp.serialized[field].value != "" {
        assert d == Skip;
        return;
      }
      DecideAssigns(source, comp.serialized, i);
      AssignKey(comp, field, cleaned);
      n := 1;
    }

    /**
     * The body of ProcessText's loop once the key field is found empty: the key is
     * the counter's numeral (advancing the counter) for multi-word text and
     * GenerateKey otherwise; it is written to the field, and the text is exported
     * unless seen before.
     */
    method AssignKey(comp: LocalizedComponent, field: string, cleaned: string)
      requires Valid()
      modifies this, comp`serialized
      ensures Valid()
      ensures var key := KeyFor(cleaned, old(numericKeyCounter));
        comp.serialized == old(comp.serialized)[field := StringValue(key)]
        && exportLines == if cleaned in old(seen) then old(exportLines)
                          else old(exportLines) + [ExportLine(key, cleaned)]
      ensures numericKeyCounter == old(numericKeyCounter) + (if ' ' in cleaned then 1 else 0)
      ensures seen == old(seen) + {cleaned}
    {
      var key := NextKey(cleaned);
      // The export bookkeeping and the property write touch disjoint objects.
      Record(key, cleaned);
      comp.SetString(field, key);
    }

    /** The key for cleaned: the counter's numeral (advancing the counter) for multi-word text, GenerateKey otherwise. */
    method NextKey(cleaned: string) returns (key: string)
      modifies this`numericKeyCounter
      ensures key == KeyFor(cleaned, old(numericKeyCounter))
      ensures numericKeyCounter == old(numericKeyCounter) + (if ' ' in cleaned then 1 else 0)
    {
      MultiWordIffSpace(cleaned);
      if IsMultiWord(cleaned) {
        key := NatToDecimal(numericKeyCounter);
        numericKeyCounter := numericKeyCounter + 1;
      } else {
        key := GenerateKey(cleaned);
      }
    }

    /** Marks source as seen and, the first time, appends its export line. */
    method Record(key: string, source: string)
      requires Valid() && ' ' !in key
      modifies this`seen, this`exportLines, this`entries
      ensures Valid()
      ensures seen == old(seen) + {source}
      ensures exportLines == if source in old(seen) then old(exportLines)
                             else old(exportLines) + [ExportLine(key, source)]
    {
      ExportInvariantSee(seen, exportLines, entries, key, source);
      var isNew := source !in seen;
      seen := seen + {source};
      if isNew {
        exportLines := exportLines + [ExportLine(key, source)];
        entries := entries + [Entry(key, source)];
      }
    }

    /**
     * RunAll: resets the counter to 1, then for each root, each of its Text elements
     * and then each of its TextMeshPro elements, adds the missing localization
     * component and processes the element's text with that component. Returns the
     * components added, the keys assigned and the export file's content.
     */
    method RunAll(roots: seq<Root>, legacyFields: map<string, SerializedValue>,
                  tmpFields: map<string, SerializedValue>, nl: string)
      returns (added: nat, keyed: nat, content: string)
      requires WellFormedScene(roots)
      modifies this, SceneObjects(roots), ComponentsOf(SceneObjects(roots))
      ensures Valid()
      ensures 1 <= numericKeyCounter <= 1 + keyed
      ensures |exportLines| <= keyed <= ElementCount(roots)
      ensures content == ExportContent(PromptHeader, exportLines, nl)
      ensures added == |old(LacksLegacy(SceneObjects(roots)))| + |old(LacksTmp(SceneObjects(roots)))|
      ensures forall g :: g in SceneObjects(roots) ==>
        Complete(g) && Kept(old(g.legacyText), g.legacyText) && Kept(old(g.tmpText), g.tmpText)
    {
      ghost var objs := SceneObjects(roots);
      ghost var l, t := LacksLegacy(objs), LacksTmp(objs);
      numericKeyCounter := 1;
      seen := {};
      exportLines := [];
      entries := [];
      assert LacksLegacy(objs) == l && LacksTmp(objs) == t;
      SceneMembers(roots);
      added, keyed := ProcessRoots(roots, objs, legacyFields, tmpFields);
      SceneComplete(roots);
      NoneLacking(objs);
      content := WriteExportFile(exportLines, nl);
    }

    /**
     * RunAll's outer foreach over the scene's roots, from a freshly reset pipeline.
     * Every element's GameObject ends up with the components of its text kinds, and
     * one component is added for each one missing among objs at the start.
     */
    method ProcessRoots(roots: seq<Root>, ghost objs: set<GameObject>,
                        legacyFields: map<string, SerializedValue>, tmpFields: map<string, SerializedValue>)
      returns (added: nat, keyed: nat)
      requires Valid() && numericKeyCounter == 1 && exportLines == []
      requires forall i, k :: 0 <= i < |roots| && 0 <= k < |roots[i].texts| ==> roots[i].texts[k].go in objs && roots[i].texts[k].go.hasText
      requires forall i, k :: 0 <= i < |roots| && 0 <= k < |roots[i].tmps| ==> roots[i].tmps[k].go in objs && roots[i].tmps[k].go.hasTmp
      modifies this, objs, ComponentsOf(objs)
      ensures Valid()
      ensures 1 <= numericKeyCounter <= 1 + keyed
      ensures |exportLines| <= keyed <= ElementCount(roots)
      ensures added + |LacksLegacy(objs)| + |LacksTmp(objs)| == |old(LacksLegacy(objs))| + |old(LacksTmp(objs))|
      ensures forall g :: g in objs ==> Kept(old(g.legacyText), g.legacyText) && Kept(old(g.tmpText), g.tmpText)
      ensures forall i, k :: 0 <= i < |roots| && 0 <= k < |roots[i].texts| ==> Complete(roots[i].texts[k].go)
      ensures forall i, k :: 0 <= i < |roots| && 0 <= k < |roots[i].tmps| ==> Complete(roots[i].tmps[k].go)
    {
      added, keyed := 0, 0;
      var r := 0;
      while r < |roots|
        invariant 0 <= r <= |roots|
        invariant Valid() && 1 <= numericKeyCounter <= 1 + keyed
        invariant |exportLines| <= keyed && keyed + ElementCount(roots[r..]) <= ElementCount(roots)
        invariant added + |LacksLegacy(objs)| + |LacksTmp(objs)| == |old(LacksLegacy(objs))| + |old(LacksTmp(objs))|
        invariant forall g :: g in objs ==> Kept(old(g.legacyText), g.legacyText) && Kept(old(g.tmpText), g.tmpText)
        invariant forall i, k :: 0 <= i < r && 0 <= k < |roots[i].texts| ==> Complete(roots[i].texts[k].go)
        invariant forall i, k :: 0 <= i < r && 0 <= k < |roots[i].tmps| ==> Complete(roots[i].tmps[k].go)
      {
        assert roots[r..][1..] == roots[r + 1..];
        added, keyed := ProcessRoot(roots[r], objs, added, keyed, legacyFields, tmpFields);
        r := r + 1;
      }
      assert roots[|roots|..] == [];
    }

    /** One iteration of RunAll's outer foreach: the root's Text elements, then its TextMeshPro elements. */
    method ProcessRoot(root: Root, ghost objs: set<GameObject>, added: nat, keyed: nat,
                       legacyFields: map<string, SerializedValue>, tmpFields: map<string, SerializedValue>)
      returns (added': nat, keyed': nat)
      requires Valid() && 1 <= numericKeyCounter <= 1 + keyed && |exportLines| <= keyed
      requires forall k :: 0 <= k < |root.texts| ==> root.texts[k].go in objs && root.texts[k].go.hasText
      requires forall k :: 0 <= k < |root.tmps| ==> root.tmps[k].go in objs && root.tmps[k].go.hasTmp
      modifies this, objs, ComponentsOf(objs)
      ensures Valid() && 1 <= numericKeyCounter <= 1 + keyed'
      ensures |exportLines| <= keyed' <= keyed + |root.texts| + |root.tmps|
      ensures added' + |LacksLegacy(objs)| + |LacksTmp(objs)| == added + |old(LacksLegacy(objs))| + |old(LacksTmp(objs))|
      ensures forall g :: g in objs ==> Kept(old(g.legacyText), g.legacyText) && Kept(old(g.tmpText), g.tmpText)
      ensures forall g :: g in objs && old(Complete(g)) ==> Complete(g)
      ensures forall k :: 0 <= k < |root.texts| ==> Complete(root.texts[k].go)
      ensures forall k :: 0 <= k < |root.tmps| ==> Complete(root.tmps[k].go)
    {
      added', keyed' := ProcessElements(root.texts, false, objs, added, keyed, legacyFields, tmpFields);
      added', keyed' := ProcessElements(root.tmps, true, objs, added', keyed', legacyFields, tmpFields);
    }

    /**
     * One inner foreach of RunAll: for each element in order, adds the missing
     * localization component and processes the element's text with the component
     * of its kind (LocalizedTMPText when tmp, LocalizedLegacyText otherwise).
     * Every component added is one that was missing: added grows by exactly as
     * much as the number of missing components among objs shrinks.
     */
    method ProcessElements(elements: seq<TextElement>, tmp: bool, ghost objs: set<GameObject>,
                           added: nat, keyed: nat,
                           legacyFields: map<string, SerializedValue>, tmpFields: map<string, SerializedValue>)
      returns (added': nat, keyed': nat)
      requires Valid() && 1 <= numericKeyCounter <= 1 + keyed && |exportLines| <= keyed
      requires forall k :: 0 <= k < |elements| ==> elements[k].go in objs && if tmp then elements[k].go.hasTmp else elements[k].go.hasText
      modifies this, objs, ComponentsOf(objs)
      ensures Valid() && 1 <= numericKeyCounter <= 1 + keyed'
      ensures |exportLines| <= keyed' <= keyed + |elements|
      ensures added' + |LacksLegacy(objs)| + |LacksTmp(objs)| == added + |old(LacksLegacy(objs))| + |old(LacksTmp(objs))|
      ensures forall g :: g in objs ==> Kept(old(g.legacyText), g.legacyText) && Kept(old(g.tmpText), g.tmpText)
      ensures forall k :: 0 <= k < |elements| ==> Complete(elements[k].go)
    {
      added', keyed' := added, keyed;
      var j := 0;
      while j < |elements|
        invariant 0 <= j <= |elements|
        invariant Valid() && 1 <= numericKeyCounter <= 1 + keyed'
        invariant |exportLines| <= keyed' <= keyed + j
        invariant added' + |LacksLegacy(objs)| + |LacksTmp(objs)| == added + |old(LacksLegacy(objs))| + |old(LacksTmp(objs))|
        invariant forall g :: g in objs ==> Kept(old(g.legacyText), g.legacyText) && Kept(old(g.tmpText), g.tmpText)
        invariant forall k :: 0 <= k < j ==> Complete(elements[k].go)
      {
        var n;
        added', n := ProcessElement(elements[j], tmp, objs, added', legacyFields, tmpFields);
        keyed' := keyed' + n;
        j := j + 1;
      }
    }

    /**
     * The body of one inner foreach: adds the missing localization components to the
     * element's GameObject, then processes its text with the component of its kind.
     * That component's fields before processing are its own when it existed and the
     * given defaults when it was just added; Decide on them says what happens.
     */
    method ProcessElement(e: TextElement, tmp: bool, ghost objs: set<GameObject>, added: nat,
                          legacyFields: map<string, SerializedValue>, tmpFields: map<string, SerializedValue>)
      returns (added': nat, n: nat)
      requires Valid() && e.go in objs
      requires if tmp then e.go.hasTmp else e.go.hasText
      modifies this, e.go, e.go.legacyText, e.go.tmpText
      ensures Valid() && n <= 1
      ensures old(numericKeyCounter) <= numericKeyCounter <= old(numericKeyCounter) + n && |exportLines| <= old(|exportLines|) + n
      ensures added' == added + MissingComponents(e.go.hasText, old(e.go.legacyText) != null, e.go.hasTmp, old(e.go.tmpText) != null)
      ensures added' + |LacksLegacy(objs)| + |LacksTmp(objs)| == added + |old(LacksLegacy(objs))| + |old(LacksTmp(objs))|
      ensures Complete(e.go)
      ensures forall g :: g in objs && old(Complete(g)) ==> Complete(g)
      ensures forall g :: g in objs && g != e.go ==> g.legacyText == old(g.legacyText) && g.tmpText == old(g.tmpText)
      ensures Kept(old(e.go.legacyText), e.go.legacyText) && Kept(old(e.go.tmpText), e.go.tmpText)
      ensures var before := if tmp then old(e.go.tmpText) else old(e.go.legacyText);
        var props := if before != null then old(before.serialized) else if tmp then tmpFields else legacyFields;
        var comp := if tmp then e.go.tmpText else e.go.legacyText;
        var d := Decide(e.text, props);
        comp != null
        && (d.Skip? ==> n == 0 && numericKeyCounter == old(numericKeyCounter) && seen == old(seen)
                        && exportLines == old(exportLines) && comp.serialized == props)
        && (d.Assign? ==>
              var key := KeyFor(d.cleaned, old(numericKeyCounter));
              n == 1
              && comp.serialized == props[d.field := StringValue(key)]
              && numericKeyCounter == old(numericKeyCounter) + (if ' ' in d.cleaned then 1 else 0)
              && seen == old(seen) + {d.cleaned}
              && exportLines == if d.cleaned in old(seen) then old(exportLines)
                                else old(exportLines) + [ExportLine(key, d.cleaned)])
    {
      added' := AddLocalizationIfMissing(e.go, added, legacyFields, tmpFields);
      var comp := if tmp then e.go.tmpText else e.go.legacyText;
      n := ProcessText(e.text, comp);
      LacksStep(objs, e.go);
    }
  }

  /** WriteExportFile's StringBuilder: the header line, then one line per export entry. */
  method WriteExportFile(lines: seq<string>, nl: string) returns (content: string)
    ensures content == ExportContent(PromptHeader, lines, nl)
  {
    content := PromptHeader + nl;
    var i := 0;
    while i < |lines|
      invariant 0 <= i <= |lines|
      invariant content == ExportContent(PromptHeader, lines[..i], nl)
    {
      assert lines[..i + 1][..i] == lines[..i];
      content := content + lines[i] + nl;
      i := i + 1;
    }
    assert lines[..|lines|] == lines;
  }

  /** The sources of the entries, as a set. */
  function Sources(entries: seq<Entry>): set<string>
  {
    if entries == [] then {} else Sources(entries[..|entries| - 1]) + {entries[|entries| - 1].source}
  }

  lemma {:induction false} SourcesHoldEach(entries: seq<Entry>, i: nat)
    requires i < |entries|
    ensures entries[i].source in Sources(entries)
  {
    if i < |entries| - 1 {
      SourcesHoldEach(entries[..|entries| - 1], i);
    }
  }

  /** The export lines for the entries, in order. */
  function Lines(entries: seq<Entry>): (lines: seq<string>)
    ensures |lines| == |entries|
  {
    if entries == [] then []
    else Lines(entries[..|entries| - 1]) + [ExportLine(entries[|entries| - 1].key, entries[|entries| - 1].source)]
  }

  /** Every key is free of spaces and every source is new when its entry is added. */
  predicate WellKeyed(entries: seq<Entry>)
  {
    entries == []
    || (var init, last := entries[..|entries| - 1], entries[|entries| - 1];
        WellKeyed(init) && ' ' !in last.key && last.source !in Sources(init))
  }

  /**
   * The export lines are those of the entries, each key has no space, no source
   * is exported twice, and the seen set holds exactly the exported sources.
   */
  ghost predicate ExportInvariant(seen: set<string>, lines: seq<string>, entries: seq<Entry>)
  {
    lines == Lines(entries) && WellKeyed(entries) && seen == Sources(entries)
  }

  /** Seeing a text keeps the invariant, with an export line added exactly when the text is new. */
  lemma ExportInvariantSee(seen: set<string>, lines: seq<string>, entries: seq<Entry>, key: string, source: string)
    requires ExportInvariant(seen, lines, entries) && ' ' !in key
    ensures source in seen ==> ExportInvariant(seen + {source}, lines, entries)
    ensures source !in seen ==>
      ExportInvariant(seen + {source}, lines + [ExportLine(key, source)], entries + [Entry(key, source)])
  {
    if source in seen {
      assert seen + {source} == seen;
    } else {
      assert (entries + [Entry(key, source)])[..|entries|] == entries;
    }
  }

  /** In a well-keyed list, every line is "key = source" of its entry, keys have no space and sources differ. */
  lemma {:induction false} WellKeyedFacts(entries: seq<Entry>)
    requires WellKeyed(entries)
    ensures forall i :: 0 <= i < |entries| ==> Lines(entries)[i] == ExportLine(entries[i].key, entries[i].source)
    ensures forall i :: 0 <= i < |entries| ==> ' ' !in entries[i].key
    ensures forall i, j :: 0 <= i < j < |entries| ==> entries[i].source != entries[j].source
  {
    if entries != [] {
      var init := entries[..|entries| - 1];
      WellKeyedFacts(init);
      forall i | 0 <= i < |init|
        ensures entries[i].source != entries[|entries| - 1].source
      {
        SourcesHoldEach(init, i);
      }
    }
  }

  /** A well-keyed list has as many sources as entries. */
  lemma {:induction false} WellKeyedSourcesCount(entries: seq<Entry>)
    requires WellKeyed(entries)
    ensures |Sources(entries)| == |entries|
  {
    if entries != [] {
      WellKeyedSourcesCount(entries[..|entries| - 1]);
    }
  }
}
