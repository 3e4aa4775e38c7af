/** The header merge of `processJsdoc`: find the leading block comment the way
    the regular expression `^\s*\/\*\*[\s\S]*?\*\/` does, keep its copyright and
    licence lines, and splice the newly rendered block into the file text. */
module JsdocMerge {
  import opened JsText
  import opened JsdocBlock

  datatype Option<T> = None | Some(value: T)

  /** The opening delimiter (slash, star, star) starts at index `k`. */
  predicate OpenAt(s: string, k: int) {
    0 <= k && k + 3 <= |s| && s[k] == '/' && s[k + 1] == '*' && s[k + 2] == '*'
  }

  /** The closing delimiter (star, slash) starts at index `j`. */
  predicate CloseAt(s: string, j: int) {
    0 <= j && j + 2 <= |s| && s[j] == '*' && s[j + 1] == '/'
  }

  /** The first closing delimiter at or after `from`, scanning forward. */
  function FindClose(s: string, from: nat): (r: Option<nat>)
    ensures r.Some? ==> (from <= r.value && CloseAt(s, r.value)
      && forall j :: from <= j < r.value ==> !CloseAt(s, j))
    ensures r.None? ==> forall j :: from <= j ==> !CloseAt(s, j)
    decreases |s| - from
  {
    if from + 2 > |s| then None
    else if s[from] == '*' && s[from + 1] == '/' then Some(from)
    else FindClose(s, from + 1)
  }

  /** What the regular expression accepts as the prefix `s[..e]`, written
      declaratively: whitespace up to `k`, the opening delimiter at `k`, and the
      first closing delimiter after it ending at `e`. */
  ghost predicate HeaderMatchAt(s: string, k: int, e: int) {
    0 <= k <= |s| && AllWs(s[..k]) && OpenAt(s, k)
    && k + 3 <= e - 2 && CloseAt(s, e - 2)
    && forall j :: k + 3 <= j < e - 2 ==> !CloseAt(s, j)
  }

  ghost predicate HeaderMatch(s: string, e: int) {
    exists k :: HeaderMatchAt(s, k, e)
  }

  /** The end of the existing header (the length of the regular expression's
      match), if the file starts with one. */
  function HeaderEnd(s: string): (r: Option<nat>)
    ensures r.Some? ==> r.value <= |s| && HeaderMatchAt(s, LeadingWs(s), r.value)
  {
    var k := LeadingWs(s);
    if !OpenAt(s, k) then None
    else
      match FindClose(s, k + 3)
      case Some(j) => Some(j + 2)
      case None => None
  }

  /** The scan finds a header exactly when the regular expression matches, and it
      ends where the match ends: only leading whitespace may precede the opening
      delimiter, and the match stops at the first closing delimiter after it. */
  lemma HeaderEndIsRegexMatch(s: string, e: int)
    ensures HeaderEnd(s) == Some(e) <==> HeaderMatch(s, e)
  {
    var k := LeadingWs(s);
    if HeaderEnd(s) == Some(e) {
      assert HeaderMatchAt(s, k, e);
    }
    if HeaderMatch(s, e) {
      var k' :| HeaderMatchAt(s, k', e);
      OnlyLeadingWs(s, k');
      var j := FindClose(s, k + 3);
      assert j.Some?;
      assert j.value == e - 2;
    }
  }

  /** An opening delimiter after nothing but whitespace can only start where the whitespace ends. */
  lemma OnlyLeadingWs(s: string, k: int)
    requires 0 <= k <= |s| && AllWs(s[..k]) && OpenAt(s, k)
    ensures k == LeadingWs(s)
  {
    LeadingWsAtLeast(s, k);
    LeadingWsAtMost(s, k);
  }

  /** A line of the old header that has to survive: it mentions a copyright or a licence. */
  predicate Marked(line: string) {
    Contains(line, "Copyright") || Contains(line, "@license")
  }

  /** `lines.filter(...)` keeping the marked lines. */
  function KeepMarked(lines: seq<string>): (r: seq<string>)
    ensures forall i :: 0 <= i < |r| ==> Marked(r[i])
  {
    if |lines| == 0 then []
    else (if Marked(lines[0]) then [lines[0]] else []) + KeepMarked(lines[1..])
  }

  /** The kept lines are exactly the marked ones, there are no more of them than
      lines, and filtering a concatenation filters each part in turn: each marked
      line is kept once, in its original order. */
  lemma KeepMarkedIsFilter(a: seq<string>, b: seq<string>)
    ensures forall x :: x in KeepMarked(a) <==> x in a && Marked(x)
    ensures |KeepMarked(a)| <= |a|
    ensures KeepMarked(a + b) == KeepMarked(a) + KeepMarked(b)
  {
    KeepMarkedMembers(a);
    KeepMarkedAppend(a, b);
  }

  lemma {:induction false} KeepMarkedMembers(a: seq<string>)
    ensures forall x :: x in KeepMarked(a) <==> x in a && Marked(x)
    ensures |KeepMarked(a)| <= |a|
    decreases |a|
  {
    if |a| > 0 {
      KeepMarkedMembers(a[1..]);
      assert a == [a[0]] + a[1..];
    }
  }

  lemma {:induction false} KeepMarkedAppend(a: seq<string>, b: seq<string>)
    ensures KeepMarked(a + b) == KeepMarked(a) + KeepMarked(b)
    decreases |a|
  {
    if |a| > 0 {
      KeepMarkedAppend(a[1..], b);
      assert (a + b)[1..] == a[1..] + b;
    } else {
      assert a + b == b;
    }
  }

  /** Re-indents a kept line: a single space before its leading `*`, adding the
      `*` when the trimmed line has none; the rest is the trimmed line itself. */
  function Normalize(line: string): (r: string)
    ensures StartsWith(r, " *")
    ensures StartsWith(Trim(line), "*") ==> r[1..] == Trim(line)
    ensures !StartsWith(Trim(line), "*") ==> |r| == 3 + |Trim(line)| && r[..3] == " * " && r[3..] == Trim(line)
  {
    var t := Trim(line);
    if StartsWith(t, "*") then " " + t else " * " + t
  }

  function NormalizeAll(lines: seq<string>): (r: seq<string>)
    ensures |r| == |lines|
    ensures forall i :: 0 <= i < |lines| ==> r[i] == Normalize(lines[i])
  {
    if |lines| == 0 then [] else [Normalize(lines[0])] + NormalizeAll(lines[1..])
  }

  /** The lines carried over from the old header, in their original order; each
      one is a comment line starting with ` *`. */
  function PreservedLines(block: string): (r: seq<string>)
    ensures forall i :: 0 <= i < |r| ==> StartsWith(r[i], " *")
  {
    NormalizeAll(KeepMarked(Split(block)))
  }

  /** The template literal of the source: opening delimiter, newline, the joined
      lines, newline, space and closing delimiter. */
  function Wrap(lines: seq<string>): (r: string)
    ensures |r| == 8 + |Join(lines)|
    ensures r[..4] == "/**\n" && r[|r| - 4..] == "\n */"
    ensures r[4..|r| - 4] == Join(lines)
  {
    "/**\n" + Join(lines) + "\n */"
  }

  lemma WrapText(j: string)
    ensures "/**" + "\n" + j + "\n" + " */" == "/**\n" + j + "\n */"
  {
  }

  lemma WrapTwoGroups(a: string, b: string)
    ensures "/**\n" + (a + "\n" + b) + "\n */" == "/**\n" + a + "\n" + b + "\n */"
  {
  }

  /** Read back line by line, a block of newline-free lines is the opening
      delimiter, the lines themselves and the closing line. */
  lemma WrapSplit(lines: seq<string>)
    requires |lines| > 0
    requires forall i :: 0 <= i < |lines| ==> '\n' !in lines[i]
    ensures Split(Wrap(lines)) == ["/**"] + lines + [" */"]
  {
    var head := ["/**"] + lines;
    var all := head + [" */"];
    assert Join(head + [" */"]) == Wrap(lines) by {
      JoinAppend(["/**"], lines);
      JoinAppend(head, [" */"]);
      assert Join(["/**"]) == "/**" && Join([" */"]) == " */";
      WrapText(Join(lines));
    }
    assert forall i :: 0 <= i < |all| ==> '\n' !in all[i] by {
      forall i | 0 <= i < |all| ensures '\n' !in all[i] {
        if 0 < i < |all| - 1 {
          assert all[i] == lines[i - 1];
        }
      }
    }
    SplitJoin(all);
  }

  /** `finalJsdocBlock`: the preserved lines of the old header, if there is one,
      then the rendered metadata, wrapped as a block comment. */
  function FinalBlock(content: string, data: Metadata): (r: string)
    ensures StartsWith(r, "/**\n")
    ensures 8 <= |r| && r[|r| - 4..] == "\n */"
  {
    match HeaderEnd(content)
    case Some(e) => Wrap(PreservedLines(content[..e]) + Layout(data))
    case None => Wrap(Layout(data))
  }

  /** A header without marked lines contributes nothing: the block is the one a
      file without any header gets. */
  lemma UnmarkedHeaderDropped(content: string, data: Metadata)
    requires HeaderEnd(content).None? || PreservedLines(content[..HeaderEnd(content).value]) == []
    ensures FinalBlock(content, data) == FinalBlock("", data)
    ensures FinalBlock(content, data) == Wrap(Layout(data))
  {
    assert HeaderEnd("").None?;
    if HeaderEnd(content).Some? {
      assert PreservedLines(content[..HeaderEnd(content).value]) + Layout(data) == Layout(data);
    }
  }

  /** The merged file text, with the header replaced literally. */
  function Merge(content: string, data: Metadata): (r: string)
    ensures StartsWith(r, "/**\n")
  {
    var block := FinalBlock(content, data);
    assert block[..4] == "/**\n";
    match HeaderEnd(content)
    case Some(e) => block + content[e..]
    case None => block + (if |content| > 0 then "\n\n" else "") + content
  }

  /** The replacement-pattern expansion `String.prototype.replace` applies to a
      replacement string when there are no capture groups: `$$` gives `$`, `$&` the
      matched text, `` $` `` the text before the match, `$'` the text after it;
      every other `$` (a digit form refers to a capture that does not exist, and
      `$<` needs named groups) is kept as it is. */
  function Substitute(t: string, matched: string, before: string, after: string): (r: string)
    ensures '$' !in t ==> r == t
  {
    if |t| == 0 then ""
    else if t[0] == '$' && |t| >= 2 && t[1] in "$&`'" then
      (if t[1] == '$' then "$" else if t[1] == '&' then matched else if t[1] == '`' then before else after)
      + Substitute(t[2..], matched, before, after)
    else [t[0]] + Substitute(t[1..], matched, before, after)
  }

  /** The merged file text as the source computes it: the header is replaced with
      `fileContent.replace(regex, finalJsdocBlock)`, which expands `$` patterns in
      the new block. The match always starts at index 0. */
  function MergeAsWritten(content: string, data: Metadata): (r: string)
    ensures HeaderEnd(content).None? ==> r == Merge(content, data)
    ensures HeaderEnd(content).Some? ==> var e := HeaderEnd(content).value;
      |content| - e <= |r| && r[|r| - (|content| - e)..] == content[e..]
  {
    var block := FinalBlock(content, data);
    match HeaderEnd(content)
    case Some(e) => Substitute(block, content[..e], content[..0], content[e..]) + content[e..]
    case None => block + (if |content| > 0 then "\n\n" else "") + content
  }

  /** As long as the new block holds no `$`, the source's replacement is the literal splice. */
  lemma AsWrittenAgrees(content: string, data: Metadata)
    requires '$' !in FinalBlock(content, data)
    ensures MergeAsWritten(content, data) == Merge(content, data)
  {
  }

  /** A `$&` in a `file` value pastes the whole old header into the new one, where
      the literal splice keeps the two characters. */
  lemma DollarAmpersandPastesOldHeader(content: string, e: nat, v1: string, v2: string)
    requires HeaderEnd(content) == Some(e)
    requires PreservedLines(content[..e]) == []
    requires '$' !in v1 && '$' !in v2 && '\n' !in v1 && '\n' !in v2
    ensures var data := map["file" := Str(v1 + "$&" + v2)];
      var p, q := "/**\n * @file " + v1, v2 + "\n */";
      && Merge(content, data) == p + "$&" + q + content[e..]
      && MergeAsWritten(content, data) == p + content[..e] + q + content[e..]
  {
    var data := map["file" := Str(v1 + "$&" + v2)];
    var p, q := "/**\n * @file " + v1, v2 + "\n */";
    DollarFileBlock(content, e, v1, v2);
    DollarSplice(content, data, e, p, q);
  }

  /** A block of the form `p $& q` without other `$`: the literal splice keeps it,
      the source's replacement puts the matched header in place of `$&`. */
  lemma DollarSplice(content: string, data: Metadata, e: nat, p: string, q: string)
    requires HeaderEnd(content) == Some(e)
    requires FinalBlock(content, data) == p + "$&" + q
    requires '$' !in p && '$' !in q
    ensures Merge(content, data) == p + "$&" + q + content[e..]
    ensures MergeAsWritten(content, data) == p + content[..e] + q + content[e..]
  {
    SpliceAt(content, data, e);
    SubstituteMatchedOnce(p, q, content[..e], content[..0], content[e..]);
  }

  lemma DollarFileBlock(content: string, e: nat, v1: string, v2: string)
    requires HeaderEnd(content) == Some(e)
    requires PreservedLines(content[..e]) == []
    requires '\n' !in v1 && '\n' !in v2
    ensures FinalBlock(content, map["file" := Str(v1 + "$&" + v2)])
         == ("/**\n * @file " + v1) + "$&" + (v2 + "\n */")
  {
    var v := v1 + "$&" + v2;
    assert '\n' !in v;
    FileOnlyBlock(content, e, v);
    DollarBlock(v1, v2);
  }

  lemma DollarBlock(v1: string, v2: string)
    ensures "/**\n * @file " + (v1 + "$&" + v2) + "\n */" == ("/**\n * @file " + v1) + "$&" + (v2 + "\n */")
  {
  }

  /** Under a header ending at `e`, both merges put their block in front of `content[e..]`. */
  lemma SpliceAt(content: string, data: Metadata, e: nat)
    requires HeaderEnd(content) == Some(e)
    ensures Merge(content, data) == FinalBlock(content, data) + content[e..]
    ensures MergeAsWritten(content, data)
         == Substitute(FinalBlock(content, data), content[..e], content[..0], content[e..]) + content[e..]
  {
  }

  /** Over a header without preserved lines, metadata holding a one-line `file`
      value gives a block of that single tag line. */
  lemma FileOnlyBlock(content: string, e: nat, v: string)
    requires HeaderEnd(content) == Some(e)
    requires PreservedLines(content[..e]) == []
    requires v != "" && '\n' !in v
    ensures FinalBlock(content, map["file" := Str(v)]) == "/**\n * @file " + v + "\n */"
  {
    var data := map["file" := Str(v)];
    var line := " * @file " + v;
    assert FinalBlock(content, data) == Wrap([line]) by {
      FileOnlyLayout(v);
      assert PreservedLines(content[..e]) + Layout(data) == [line];
    }
    assert Wrap([line]) == "/**\n * @file " + v + "\n */" by {
      assert Join([line]) == line;
      assert "/**\n" + " * @file " == "/**\n * @file ";
      ConcatAssoc("/**\n", " * @file ", v);
    }
  }

  lemma FileOnlyLayout(v: string)
    requires v != "" && '\n' !in v
    ensures Layout(map["file" := Str(v)]) == [" * @file " + v]
  {
    var data := map["file" := Str(v)];
    ReindentNoNewline(v);
    SingleTagLayout(data, "file");
    assert " * @" + "file" + " " == " * @file ";
    assert TagLines("file", Str(v)) == [" * @file " + v];
  }

  /** The smallest instance: the file is the empty header and `file` is `$&`. */
  lemma DollarAmpersandExample()
    ensures MergeAsWritten("/***/", map["file" := Str("$&")]) != Merge("/***/", map["file" := Str("$&")])
  {
    BareHeader();
    DollarAmpersandPastesOldHeader("/***/", 5, "", "");
    assert "" + "$&" + "" == "$&";
  }

  lemma BareHeader()
    ensures HeaderEnd("/***/") == Some(5)
    ensures PreservedLines("/***/"[..5]) == []
  {
    var content := "/***/";
    assert LeadingWs(content) == 0;
    assert FindClose(content, 3) == Some(3);
    assert content[..5] == content;
    SplitNoNewline(content);
    assert !Marked(content);
  }

  /** A single `$&` between literal text turns into the matched text. */
  lemma SubstituteMatchedOnce(p: string, q: string, matched: string, before: string, after: string)
    requires '$' !in p && '$' !in q
    ensures Substitute(p + "$&" + q, matched, before, after) == p + matched + q
  {
    SubstituteLiteralPrefix(p, "$&" + q, matched, before, after);
    var t := "$&" + q;
    assert p + "$&" + q == p + t;
    assert t[0] == '$' && t[1] == '&' && t[2..] == q;
    assert Substitute(t, matched, before, after) == matched + Substitute(q, matched, before, after);
  }

  /** Text without `$` before a pattern is copied as it is. */
  lemma {:induction false} SubstituteLiteralPrefix(p: string, t: string, matched: string, before: string, after: string)
    requires '$' !in p
    ensures Substitute(p + t, matched, before, after) == p + Substitute(t, matched, before, after)
    decreases |p|
  {
    if |p| > 0 {
      assert (p + t)[1..] == p[1..] + t;
      assert (p + t)[0] == p[0];
      SubstituteLiteralPrefix(p[1..], t, matched, before, after);
      assert p == [p[0]] + p[1..];
    } else {
      assert p + t == t;
    }
  }

  /** `processJsdoc` without its file access: render, find the old header, build
      the final block and place it. */
  method ProcessJsdoc(content: string, data: Metadata) returns (updated: string)
    ensures updated == MergeAsWritten(content, data)
    ensures '$' !in FinalBlock(content, data) ==> updated == Merge(content, data)
  {
    var newBlockContent := BuildNewJsdocBlock(data);
    var existing := HeaderEnd(content);
    var finalBlock: string;
    if existing.Some? {
      var preserved := PreservedLines(content[..existing.value]);
      finalBlock := Wrap(preserved + newBlockContent);
    } else {
      finalBlock := Wrap(newBlockContent);
    }
    if existing.Some? {
      var e := existing.value;
      updated := Substitute(finalBlock, content[..e], content[..0], content[e..]) + content[e..];
    } else {
      var separator := if |content| > 0 then "\n\n" else "";
      updated := finalBlock + separator + content;
    }
  }

  /** Without a header at the start, the new block is put in front of the file:
      followed by one blank line and the untouched content, or alone when the file
      is empty. */
  lemma MergeWithoutHeader(content: string, data: Metadata)
    requires forall e :: !HeaderMatch(content, e)
    ensures |content| > 0 ==> Merge(content, data) == Wrap(Layout(data)) + "\n\n" + content
    ensures |content| == 0 ==> Merge(content, data) == Wrap(Layout(data))
  {
    if HeaderEnd(content).Some? {
      HeaderEndIsRegexMatch(content, HeaderEnd(content).value);
    }
  }

  /** With a header ending at `e`, the whole prefix up to `e` (leading whitespace
      included) is replaced, and everything from `e` on is kept unchanged. */
  lemma MergeWithHeader(content: string, data: Metadata, e: int)
    requires HeaderMatch(content, e)
    ensures 0 <= e <= |content|
    ensures Merge(content, data) == Wrap(PreservedLines(content[..e]) + Layout(data)) + content[e..]
  {
    HeaderEndIsRegexMatch(content, e);
  }

  /** The preserved lines are the marked lines of the old header, normalised, in
      order; they all start with ` *`. */
  lemma PreservedLinesSelected(block: string)
    ensures var kept := KeepMarked(Split(block));
      && (forall x :: x in kept <==> x in Split(block) && Marked(x))
      && |kept| <= |Split(block)|
      && |PreservedLines(block)| == |kept|
      && forall i :: 0 <= i < |kept| ==> PreservedLines(block)[i] == Normalize(kept[i])
    ensures forall i :: 0 <= i < |PreservedLines(block)| ==> StartsWith(PreservedLines(block)[i], " *")
  {
    KeepMarkedIsFilter(Split(block), []);
  }

  /** Under a header with marked lines, the new block holds the preserved lines
      first and the rendered lines directly after them: one newline between the
      two groups, and the first rendered line is a tag line, not a lone ` *`. */
  lemma PreservedBeforeRendered(content: string, data: Metadata, e: int)
    requires HeaderMatch(content, e)
    ensures 0 <= e <= |content|
    ensures var preserved := PreservedLines(content[..e]);
      preserved != [] && Layout(data) != [] ==>
        && FinalBlock(content, data) == "/**\n" + Join(preserved) + "\n" + Join(Layout(data)) + "\n */"
        && Layout(data)[0] != " *"
  {
    HeaderEndIsRegexMatch(content, e);
    var preserved, rendered := PreservedLines(content[..e]), Layout(data);
    if preserved != [] && rendered != [] {
      assert FinalBlock(content, data) == Wrap(preserved + rendered);
      JoinAppend(preserved, rendered);
      WrapTwoGroups(Join(preserved), Join(rendered));
    }
  }

  /** With nothing to render and nothing to preserve (no header, or a header
      without marked lines), the new block is the bare comment. */
  lemma EmptyBlock(content: string, data: Metadata)
    requires forall t :: t in TagOrder ==> !Truthy(data, t)
    requires HeaderEnd(content).None? || PreservedLines(content[..HeaderEnd(content).value]) == []
    ensures FinalBlock(content, data) == "/**\n\n */"
  {
    NothingToRender(data);
    UnmarkedHeaderDropped(content, data);
  }
}
