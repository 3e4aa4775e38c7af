/** The block builder: renders header metadata as the interior lines of a
    `/** ... */` comment, in a fixed tag order with blank ` *` lines before the
    section-like tags. */
module JsdocBlock {
  import opened JsText

  /** The value of one metadata key, as decoded from JSON: a string or an array of strings. */
  datatype Value = Str(text: string) | Arr(items: seq<string>)

  /** The metadata record, keyed by tag name. Keys outside `TagOrder` may be present. */
  type Metadata = map<string, Value>

  /** The tags that are rendered, in rendering order. */
  const TagOrder: seq<string> := ["file", "version", "description", "summary", "module", "dependencies", "outputs", "changelog"]

  /** The tags preceded by a ` *` line when something has been rendered before them. */
  const TagsWithSpacing: seq<string> := ["module", "dependencies", "outputs", "changelog"]

  /** JavaScript truthiness of `data[tag]`: a missing key and the empty string are
      falsy; every array, the empty one included, is truthy. */
  predicate Truthy(data: Metadata, tag: string)
    ensures Truthy(data, tag) <==> tag in data && data[tag] != Str("")
  {
    tag in data && (data[tag].Arr? || data[tag].text != "")
  }

  /** ` * - item` for every element, in element order. */
  function Bullets(items: seq<string>): (r: seq<string>)
    ensures |r| == |items|
    ensures forall j :: 0 <= j < |items| ==> r[j] == " * - " + items[j]
  {
    if |items| == 0 then [] else [" * - " + items[0]] + Bullets(items[1..])
  }

  /** The lines one tag renders to, not counting a spacing line: an array gives its
      ` * @tag` heading and one bullet per element; a string gives the single entry
      ` * @tag value` with its newlines re-indented. */
  function TagLines(tag: string, v: Value): (r: seq<string>)
    ensures v.Arr? ==> (|r| == 1 + |v.items| && r[0] == " * @" + tag
      && forall j :: 0 <= j < |v.items| ==> r[1 + j] == " * - " + v.items[j])
    ensures v.Str? ==> r == [" * @" + tag + " " + Reindent(v.text)]
  {
    match v
    case Arr(items) => [" * @" + tag] + Bullets(items)
    case Str(text) => [" * @" + tag + " " + Reindent(text)]
  }

  /** The ` *` line due before `tag`, given whether some line has been rendered already. */
  function Separator(tag: string, started: bool): seq<string> {
    if tag in TagsWithSpacing && started then [" *"] else []
  }

  /** Everything one rendered tag contributes. */
  function Section(data: Metadata, tag: string, started: bool): seq<string>
    requires tag in data
  {
    Separator(tag, started) + TagLines(tag, data[tag])
  }

  /** Every tag of `r` has a value in `data`. */
  predicate AllKnown(data: Metadata, r: seq<string>) {
    forall i :: 0 <= i < |r| ==> r[i] in data
  }

  /** The tags of `tags` whose value is truthy, in the order of `tags`. */
  function Rendered(data: Metadata, tags: seq<string>): (r: seq<string>)
    ensures AllKnown(data, r)
  {
    if |tags| == 0 then []
    else (if Truthy(data, tags[0]) then [tags[0]] else []) + Rendered(data, tags[1..])
  }

  /** The sections of the rendered tags, one after another; `started` says whether
      anything came before the first of them. */
  function Sections(data: Metadata, rendered: seq<string>, started: bool): seq<string>
    requires AllKnown(data, rendered)
  {
    if |rendered| == 0 then []
    else Section(data, rendered[0], started) + Sections(data, rendered[1..], true)
  }

  /** The lines `buildNewJsdocBlock` returns for `data`: none exactly when no tag
      is rendered, and never a lone ` *` first. */
  function Layout(data: Metadata): (r: seq<string>)
    ensures r == [] <==> Rendered(data, TagOrder) == []
    ensures r != [] ==> r[0] != " *"
  {
    FirstSection(data, Rendered(data, TagOrder));
    Sections(data, Rendered(data, TagOrder), false)
  }

  /** Without anything before it, the first section starts with its tag line. */
  lemma FirstSection(data: Metadata, rendered: seq<string>)
    requires AllKnown(data, rendered)
    ensures Sections(data, rendered, false) == [] <==> rendered == []
    ensures rendered != [] ==> Sections(data, rendered, false)[0] == TagLines(rendered[0], data[rendered[0]])[0]
  {
  }

  /** Renders `data` line by line as the source does, one tag at a time in `TagOrder`. */
  method BuildNewJsdocBlock(data: Metadata) returns (lines: seq<string>)
    ensures lines == Layout(data)
  {
    lines := [];
    var i := 0;
    while i < |TagOrder|
      invariant 0 <= i <= |TagOrder|
      invariant lines == Sections(data, Rendered(data, TagOrder[..i]), false)
    {
      var tag := TagOrder[i];
      ghost var before := lines;
      if Truthy(data, tag) {
        lines := PushTag(lines, tag, data[tag]);
      }
      LayoutStep(data, TagOrder, i, before);
      i := i + 1;
    }
    assert TagOrder[..i] == TagOrder;
  }

  /** One step of the loop: a truthy tag appends its section, with the spacing line
      decided by whether anything has been rendered; any other tag appends nothing. */
  lemma LayoutStep(data: Metadata, tags: seq<string>, i: nat, lines: seq<string>)
    requires i < |tags|
    requires lines == Sections(data, Rendered(data, tags[..i]), false)
    ensures var t := tags[i];
      Sections(data, Rendered(data, tags[..i + 1]), false)
         == if Truthy(data, t) then lines + Separator(t, |lines| > 0) + TagLines(t, data[t]) else lines
  {
    var t := tags[i];
    assert tags[..i + 1] == tags[..i] + [t];
    var before := Rendered(data, tags[..i]);
    RenderedSnoc(data, tags[..i], t);
    if Truthy(data, t) {
      SectionsAppend(data, before, [t], false);
      assert [t][1..] == [];
      SectionsEmpty(data, before, false);
    } else {
      assert before + [] == before;
    }
  }

  /** The body of the per-tag callback: the spacing line is due when `lines` is
      already non-empty, then the tag's own lines follow. */
  method PushTag(lines: seq<string>, tag: string, v: Value) returns (out: seq<string>)
    ensures out == lines + Separator(tag, |lines| > 0) + TagLines(tag, v)
  {
    out := lines;
    if tag in TagsWithSpacing && |out| > 0 {
      out := out + [" *"];
    }
    match v
    case Arr(items) =>
      out := PushItems(out + [" * @" + tag], items);
    case Str(text) =>
      out := out + [" * @" + tag + " " + Reindent(text)];
  }

  /** The inner callback over an array value: one bullet per element, in order. */
  method PushItems(lines: seq<string>, items: seq<string>) returns (out: seq<string>)
    ensures out == lines + Bullets(items)
  {
    out := lines;
    var j := 0;
    while j < |items|
      invariant 0 <= j <= |items|
      invariant out == lines + Bullets(items[..j])
    {
      assert items[..j + 1] == items[..j] + [items[j]];
      BulletsSnoc(items[..j], items[j]);
      out := out + [" * - " + items[j]];
      j := j + 1;
    }
    assert items[..j] == items;
  }

  lemma {:induction false} BulletsSnoc(items: seq<string>, x: string)
    ensures Bullets(items + [x]) == Bullets(items) + [" * - " + x]
    decreases |items|
  {
    if |items| == 0 {
      assert [x][1..] == [];
    } else {
      BulletsSnoc(items[1..], x);
      assert (items + [x])[1..] == items[1..] + [x];
    }
  }

  lemma {:induction false} RenderedSnoc(data: Metadata, tags: seq<string>, t: string)
    ensures Rendered(data, tags + [t]) == Rendered(data, tags) + (if Truthy(data, t) then [t] else [])
    decreases |tags|
  {
    if |tags| == 0 {
      assert [t][1..] == [];
    } else {
      RenderedSnoc(data, tags[1..], t);
      assert (tags + [t])[1..] == tags[1..] + [t];
    }
  }

  /** Every rendered tag contributes at least one line. */
  lemma {:induction false} SectionsEmpty(data: Metadata, rendered: seq<string>, started: bool)
    requires AllKnown(data, rendered)
    ensures |Sections(data, rendered, started)| == 0 <==> |rendered| == 0
  {
  }

  /** Only recognised keys are looked at: the lines are the same once every other key is dropped. */
  lemma {:induction false} LayoutIgnoresOtherKeys(data: Metadata)
    ensures Layout(data) == Layout(map t | t in data && t in TagOrder :: data[t])
  {
    var known := map t | t in data && t in TagOrder :: data[t];
    RenderedRestrict(data, known, TagOrder);
    RenderedIsFilter(data, TagOrder, []);
    SectionsRestrict(data, known, Rendered(data, TagOrder), false);
  }

  lemma {:induction false} RenderedRestrict(data: Metadata, known: Metadata, tags: seq<string>)
    requires forall t :: t in tags ==> (t in data <==> t in known) && (t in data ==> data[t] == known[t])
    ensures Rendered(data, tags) == Rendered(known, tags)
    decreases |tags|
  {
    if |tags| > 0 {
      RenderedRestrict(data, known, tags[1..]);
    }
  }

  lemma {:induction false} SectionsRestrict(data: Metadata, known: Metadata, rendered: seq<string>, started: bool)
    requires forall i :: 0 <= i < |rendered| ==> rendered[i] in data && rendered[i] in known && data[rendered[i]] == known[rendered[i]]
    ensures Sections(data, rendered, started) == Sections(known, rendered, started)
    decreases |rendered|
  {
    if |rendered| > 0 {
      SectionsRestrict(data, known, rendered[1..], true);
    }
  }

  /** The rendered tags are exactly the truthy ones of `tags`, there are no more
      of them than tags, and rendering a concatenation of tag lists renders each
      part in turn: each truthy tag appears once, in the order of `tags`. */
  lemma RenderedIsFilter(data: Metadata, a: seq<string>, b: seq<string>)
    ensures forall t :: t in Rendered(data, a) <==> t in a && Truthy(data, t)
    ensures |Rendered(data, a)| <= |a|
    ensures Rendered(data, a + b) == Rendered(data, a) + Rendered(data, b)
  {
    RenderedMembers(data, a);
    RenderedAppend(data, a, b);
  }

  lemma {:induction false} RenderedMembers(data: Metadata, a: seq<string>)
    ensures forall t :: t in Rendered(data, a) <==> t in a && Truthy(data, t)
    ensures |Rendered(data, a)| <= |a|
    decreases |a|
  {
    if |a| > 0 {
      RenderedMembers(data, a[1..]);
      assert a == [a[0]] + a[1..];
    }
  }

  lemma {:induction false} RenderedAppend(data: Metadata, a: seq<string>, b: seq<string>)
    ensures Rendered(data, a + b) == Rendered(data, a) + Rendered(data, b)
    decreases |a|
  {
    if |a| > 0 {
      RenderedAppend(data, a[1..], b);
      assert (a + b)[1..] == a[1..] + b;
    } else {
      assert a + b == b;
    }
  }

  /** Cutting the rendered tags at `k` cuts the lines at the start of tag `k`'s section. */
  lemma SectionsSplit(data: Metadata, r: seq<string>, k: nat, started: bool)
    requires AllKnown(data, r)
    requires k < |r|
    ensures Sections(data, r, started)
         == Sections(data, r[..k], started) + Section(data, r[k], started || k > 0) + Sections(data, r[k + 1..], true)
  {
    var rest := r[k..];
    assert r == r[..k] + rest;
    assert rest[0] == r[k] && rest[1..] == r[k + 1..];
    assert AllKnown(data, r[..k]) && AllKnown(data, rest);
    SectionsAppend(data, r[..k], rest, started);
    var flag := started || k > 0;
    assert Sections(data, rest, flag) == Section(data, r[k], flag) + Sections(data, r[k + 1..], true);
    ConcatAssoc(Sections(data, r[..k], started), Section(data, r[k], flag), Sections(data, r[k + 1..], true));
  }

  /** Rendering a concatenation renders each part, the second one knowing whether the first was empty. */
  lemma {:induction false} SectionsAppend(data: Metadata, a: seq<string>, b: seq<string>, started: bool)
    requires AllKnown(data, a) && AllKnown(data, b)
    ensures AllKnown(data, a + b)
    ensures Sections(data, a + b, started) == Sections(data, a, started) + Sections(data, b, started || |a| > 0)
    decreases |a|
  {
    if |a| == 0 {
      assert a + b == b;
    } else {
      assert (a + b)[1..] == a[1..] + b;
      assert AllKnown(data, a[1..]);
      SectionsAppend(data, a[1..], b, true);
      ConcatAssoc(Section(data, a[0], started), Sections(data, a[1..], true), Sections(data, b, true));
    }
  }

  /** The spacing rule. Let `n` be the number of lines rendered before the `k`-th
      rendered tag: `n` is non-zero exactly when an earlier tag was rendered, line `n`
      is a lone ` *` exactly when the tag is a spacing tag and `n` is non-zero, and the
      tag's own ` * @tag` line comes right after. */
  lemma SpacingRule(data: Metadata, k: nat)
    requires k < |Rendered(data, TagOrder)|
    ensures var r := Rendered(data, TagOrder);
      var n := |Sections(data, r[..k], false)|;
      var m := n + |Separator(r[k], k > 0)|;
      && (n > 0 <==> k > 0)
      && m < |Layout(data)|
      && (Layout(data)[n] == " *" <==> r[k] in TagsWithSpacing && n > 0)
      && StartsWith(Layout(data)[m], " * @" + r[k])
  {
    var r := Rendered(data, TagOrder);
    SectionsSplit(data, r, k, false);
    SectionsEmpty(data, r[..k], false);
    var sec := Section(data, r[k], k > 0);
    var n := |Sections(data, r[..k], false)|;
    var m := n + |Separator(r[k], k > 0)|;
    assert Layout(data)[n] == sec[0];
    assert Layout(data)[m] == sec[|Separator(r[k], k > 0)|];
    assert TagLines(r[k], data[r[k]])[0][..|" * @" + r[k]|] == " * @" + r[k];
  }

  /** With no recognised truthy value the builder returns no lines at all. */
  lemma NothingToRender(data: Metadata)
    requires forall t :: t in TagOrder ==> !Truthy(data, t)
    ensures Layout(data) == []
  {
    NoneRendered(data, TagOrder);
  }

  lemma {:induction false} NoneRendered(data: Metadata, tags: seq<string>)
    requires forall i :: 0 <= i < |tags| ==> !Truthy(data, tags[i])
    ensures Rendered(data, tags) == []
    decreases |tags|
  {
    if |tags| > 0 {
      NoneRendered(data, tags[1..]);
    }
  }

  /** Metadata holding only the `file` tag renders to that tag's lines alone. */
  lemma SingleTagLayout(data: Metadata, tag: string)
    requires tag == TagOrder[0] && Truthy(data, tag)
    requires forall i :: 1 <= i < |TagOrder| ==> TagOrder[i] !in data
    ensures Layout(data) == TagLines(tag, data[tag])
  {
    NoneRendered(data, TagOrder[1..]);
    assert Rendered(data, TagOrder) == [tag];
    assert Separator(tag, false) == [];
    assert Sections(data, [tag], false) == Section(data, tag, false) + Sections(data, [], true);
  }
}
