/** String primitives the header merge relies on, written out as the JavaScript
    built-ins they stand for: the `\s` class and `String.prototype.trim`,
    `includes`, `split('\n')`, `join('\n')`, and the global newline replacement
    used to re-indent multi-line tag values. */
module JsText {

  /** ECMAScript WhiteSpace or LineTerminator: the code points matched by `\s`
      and removed by `trim()`. The space separators (category Zs) are listed
      explicitly. */
  predicate IsWs(c: char) {
    c == '\t' || c == '\U{000B}' || c == '\U{000C}' || c == ' ' || c == '\U{00A0}' || c == '\U{FEFF}'
    || c == '\U{1680}' || ('\U{2000}' <= c <= '\U{200A}') || c == '\U{202F}' || c == '\U{205F}' || c == '\U{3000}'
    || c == '\n' || c == '\r' || c == '\U{2028}' || c == '\U{2029}'
  }

  predicate AllWs(s: string) {
    forall i :: 0 <= i < |s| ==> IsWs(s[i])
  }

  predicate StartsWith(s: string, p: string) {
    |p| <= |s| && s[..|p|] == p
  }

  /** `p` occurs in `s` starting at index `i`. */
  predicate OccursAt(s: string, p: string, i: int) {
    0 <= i && i + |p| <= |s| && s[i..i + |p|] == p
  }

  /** `s.includes(p)`. A match needs room for the whole pattern, and the empty
      pattern is found in every string. */
  predicate Contains(s: string, p: string)
    ensures Contains(s, p) ==> |p| <= |s|
    ensures |p| == 0 ==> Contains(s, p)
    decreases |s|
  {
    StartsWith(s, p) || (|s| > 0 && Contains(s[1..], p))
  }

  lemma {:induction false} ContainsIff(s: string, p: string)
    ensures Contains(s, p) <==> exists i :: OccursAt(s, p, i)
    decreases |s|
  {
    if StartsWith(s, p) {
      assert OccursAt(s, p, 0);
    } else if |s| > 0 {
      ContainsIff(s[1..], p);
      if Contains(s[1..], p) {
        var i :| OccursAt(s[1..], p, i);
        assert s[1..][i..i + |p|] == s[i + 1..i + 1 + |p|];
        assert OccursAt(s, p, i + 1);
      }
      if i :| OccursAt(s, p, i) {
        assert i != 0;
        assert s[1..][i - 1..i - 1 + |p|] == s[i..i + |p|];
        assert OccursAt(s[1..], p, i - 1);
      }
    }
  }

  /** Number of whitespace characters at the start of `s`: what a greedy `^\s*` consumes. */
  function LeadingWs(s: string): (k: nat)
    ensures k <= |s|
    ensures AllWs(s[..k])
    ensures k < |s| ==> !IsWs(s[k])
  {
    if |s| == 0 || !IsWs(s[0]) then 0 else 1 + LeadingWs(s[1..])
  }

  /** Every whitespace-only prefix is covered by the leading whitespace. */
  lemma {:induction false} LeadingWsAtLeast(s: string, k: int)
    requires 0 <= k <= |s| && AllWs(s[..k])
    ensures k <= LeadingWs(s)
    decreases k
  {
    if k > 0 {
      assert s[..k][0] == s[0];
      assert s[1..][..k - 1] == s[1..k];
      assert forall i :: 0 <= i < k - 1 ==> s[1..k][i] == s[..k][i + 1];
      LeadingWsAtLeast(s[1..], k - 1);
    }
  }

  /** The leading whitespace stops at the first character that is not whitespace. */
  lemma {:induction false} LeadingWsAtMost(s: string, k: int)
    requires 0 <= k < |s| && !IsWs(s[k])
    ensures LeadingWs(s) <= k
    decreases k
  {
    if IsWs(s[0]) {
      assert s[1..][k - 1] == s[k];
      LeadingWsAtMost(s[1..], k - 1);
    }
  }

  /** Number of whitespace characters at the end of `s`. */
  function TrailingWs(s: string): (k: nat)
    ensures k <= |s|
    ensures forall i :: |s| - k <= i < |s| ==> IsWs(s[i])
    ensures k < |s| ==> !IsWs(s[|s| - k - 1])
  {
    if |s| == 0 || !IsWs(s[|s| - 1]) then 0 else 1 + TrailingWs(s[..|s| - 1])
  }

  /** `s.trim()`: the result is the slice of `s` left after removing every
      whitespace character at both ends, so it neither starts nor ends with one. */
  function Trim(s: string): (r: string)
    ensures LeadingWs(s) + |r| <= |s|
    ensures r == s[LeadingWs(s)..LeadingWs(s) + |r|]
    ensures AllWs(s[..LeadingWs(s)]) && AllWs(s[LeadingWs(s) + |r|..])
    ensures |r| > 0 ==> !IsWs(r[0]) && !IsWs(r[|r| - 1])
  {
    var k := LeadingWs(s);
    var rest := s[k..];
    var t := TrailingWs(rest);
    var n := |rest| - t;
    var tail := s[k + n..];
    assert forall i :: 0 <= i < t ==> tail[i] == rest[n + i];
    assert n > 0 ==> s[k + n - 1] == rest[n - 1];
    s[k..k + n]
  }

  /** `s.split('\n')`: the pieces between newlines; never empty. */
  function Split(s: string): (r: seq<string>)
    ensures |r| >= 1
    ensures forall i :: 0 <= i < |r| ==> '\n' !in r[i]
  {
    if |s| == 0 then [""]
    else if s[0] == '\n' then [""] + Split(s[1..])
    else
      var t := Split(s[1..]);
      [[s[0]] + t[0]] + t[1..]
  }

  /** Regrouping a concatenation; callers use it to keep large operands folded. */
  lemma ConcatAssoc<T>(a: seq<T>, b: seq<T>, c: seq<T>)
    ensures a + (b + c) == (a + b) + c
  {
  }

  /** `lines.join('\n')`: the result starts with the first line, followed by a
      newline when more lines come. */
  function Join(lines: seq<string>): (r: string)
    ensures |lines| == 0 ==> r == ""
    ensures |lines| > 0 ==> |lines[0]| <= |r| && r[..|lines[0]|] == lines[0]
    ensures |lines| > 1 ==> |lines[0]| < |r| && r[|lines[0]|] == '\n'
  {
    if |lines| == 0 then ""
    else if |lines| == 1 then lines[0]
    else lines[0] + "\n" + Join(lines[1..])
  }

  /** Joining the pieces of a split gives back the original text. */
  lemma {:induction false} JoinSplit(s: string)
    ensures Join(Split(s)) == s
    decreases |s|
  {
    if |s| == 0 {
    } else if s[0] == '\n' {
      JoinSplit(s[1..]);
      assert Split(s)[1..] == Split(s[1..]);
    } else {
      JoinSplit(s[1..]);
      var t := Split(s[1..]);
      if |t| == 1 {
      } else {
        assert Split(s)[1..] == t[1..];
        assert Join(t) == t[0] + "\n" + Join(t[1..]);
      }
    }
  }

  /** Splitting a join of newline-free lines gives back the lines. */
  lemma {:induction false} SplitJoin(lines: seq<string>)
    requires |lines| >= 1
    requires forall i :: 0 <= i < |lines| ==> '\n' !in lines[i]
    ensures Split(Join(lines)) == lines
    decreases |lines|
  {
    if |lines| == 1 {
      SplitNoNewline(lines[0]);
    } else {
      SplitJoin(lines[1..]);
      SplitPrefix(lines[0], Join(lines[1..]));
      assert lines == [lines[0]] + lines[1..];
    }
  }

  lemma {:induction false} SplitNoNewline(s: string)
    requires '\n' !in s
    ensures Split(s) == [s]
    decreases |s|
  {
    if |s| > 0 {
      assert '\n' !in s[1..] by {
        forall i | 0 <= i < |s| - 1 ensures s[1..][i] != '\n' { assert s[1..][i] == s[i + 1]; }
      }
      SplitNoNewline(s[1..]);
      assert [s[0]] + s[1..] == s;
    }
  }

  lemma {:induction false} SplitPrefix(a: string, b: string)
    requires '\n' !in a
    ensures Split(a + "\n" + b) == [a] + Split(b)
    decreases |a|
  {
    if |a| == 0 {
      assert a + "\n" + b == "\n" + b;
      assert ("\n" + b)[1..] == b;
    } else {
      assert (a + "\n" + b)[1..] == a[1..] + "\n" + b;
      assert '\n' !in a[1..] by {
        forall i | 0 <= i < |a| - 1 ensures a[1..][i] != '\n' { assert a[1..][i] == a[i + 1]; }
      }
      SplitPrefix(a[1..], b);
      assert [a[0]] + a[1..] == a;
    }
  }

  /** Joining two non-empty runs of lines puts exactly one newline between them. */
  lemma {:induction false} JoinAppend(a: seq<string>, b: seq<string>)
    requires |a| > 0 && |b| > 0
    ensures Join(a + b) == Join(a) + "\n" + Join(b)
    decreases |a|
  {
    if |a| == 1 {
      assert (a + b)[1..] == b;
    } else {
      JoinAppend(a[1..], b);
      assert (a + b)[1..] == a[1..] + b;
    }
  }

  /** `v.replace(/\n/g, '\n * ')`: every newline gets the comment prefix of a
      continuation line. */
  function Reindent(v: string): (r: string)
    ensures forall i :: 0 <= i < |r| && r[i] == '\n' ==>
      i + 3 < |r| && r[i + 1] == ' ' && r[i + 2] == '*' && r[i + 3] == ' '
  {
    if |v| == 0 then ""
    else if v[0] == '\n' then "\n * " + Reindent(v[1..])
    else [v[0]] + Reindent(v[1..])
  }

  /** Inverse of `Reindent`: turns each continuation prefix back into a bare newline. */
  function Unindent(s: string): string
    decreases |s|
  {
    if |s| == 0 then ""
    else if StartsWith(s, "\n * ") then "\n" + Unindent(s[4..])
    else [s[0]] + Unindent(s[1..])
  }

  /** Re-indenting loses nothing: the original value can be recovered. */
  lemma {:induction false} UnindentReindent(v: string)
    ensures Unindent(Reindent(v)) == v
    decreases |v|
  {
    if |v| > 0 {
      UnindentReindent(v[1..]);
      var t := Reindent(v[1..]);
      if v[0] == '\n' {
        assert Reindent(v) == "\n * " + t;
        assert ("\n * " + t)[..4] == "\n * ";
        assert ("\n * " + t)[4..] == t;
      } else {
        assert Reindent(v) == [v[0]] + t;
        assert ([v[0]] + t)[0] == v[0];
        assert ([v[0]] + t)[1..] == t;
      }
      assert [v[0]] + v[1..] == v;
    }
  }

  /** A value without newlines is not changed by re-indenting. */
  lemma {:induction false} ReindentNoNewline(v: string)
    requires '\n' !in v
    ensures Reindent(v) == v
    decreases |v|
  {
    if |v| > 0 {
      assert '\n' !in v[1..];
      ReindentNoNewline(v[1..]);
      assert [v[0]] + v[1..] == v;
    }
  }
}
