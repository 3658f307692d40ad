/**
 * `buildMarkdown`: one release section of the changelog. The header
 * `## version (date)` is followed by a titled block for every non-empty
 * bucket, in the fixed order breaking, feature, fix, infra, other; the text
 * is trimmed, runs of three or more newlines are squeezed to two, and the
 * section ends with one blank line.
 */
module ChangelogMarkdown {
  import opened Text

  /** The five buckets of the changelog. */
  datatype Category = Major | Feat | Fix | Infra | Other

  /** The order in which the sections appear. */
  const Order: seq<Category> := [Major, Feat, Fix, Infra, Other]

  function Title(c: Category): string {
    match c
    case Major => "### \U{1F6A8} Breaking Changes"
    case Feat => "### \U{2728} Feature"
    case Fix => "### \U{1F41B} Bug Fix"
    case Infra => "### \U{1F527} Infra Change"
    case Other => "### \U{1F5C3} Other"
  }

  /** `groups[key]`, where a missing key reads as the empty (falsy) string. */
  function Lookup(groups: map<Category, string>, c: Category): string {
    if c in groups then groups[c] else ""
  }

  /** The titled blocks for the categories `cats`, skipping the empty buckets. */
  function Sections(groups: map<Category, string>, cats: seq<Category>): string {
    if cats == [] then ""
    else
      var g := Lookup(groups, cats[0]);
      (if g != "" then Block(cats[0], g) else "") + Sections(groups, cats[1..])
  }

  /** One titled block: `${title}\n${groups[key]}\n`. */
  function Block(c: Category, g: string): string {
    Title(c) + "\n" + g + "\n"
  }

  function Header(version: string, date: string): string {
    "## " + version + " (" + date + ")"
  }

  /** No three newlines in a row. */
  predicate NoTripleNewline(s: string) {
    forall k :: 0 <= k < |s| - 2 ==> !(s[k] == '\n' && s[k + 1] == '\n' && s[k + 2] == '\n')
  }

  /** Length of the run of newlines that starts `s`. */
  function NewlineRun(s: string): (n: nat)
    ensures n <= |s|
    ensures forall k :: 0 <= k < n ==> s[k] == '\n'
    ensures n < |s| ==> s[n] != '\n'
  {
    if s == [] || s[0] != '\n' then 0 else 1 + NewlineRun(s[1..])
  }

  /**
   * `s.replace(/\n{3,}/g, "\n\n")`. A match can only start at the first
   * newline of a run and, being greedy, takes the whole run; a run of one or
   * two newlines matches nowhere and is kept.
   */
  function CollapseNewlines(s: string): string
    decreases |s|
  {
    if s == [] then []
    else if s[0] != '\n' then [s[0]] + CollapseNewlines(s[1..])
    else
      var n := NewlineRun(s);
      (if n >= 3 then "\n\n" else s[..n]) + CollapseNewlines(s[n..])
  }

  /** `buildMarkdown(version, date, groups)`. */
  function BuildMarkdown(version: string, date: string, groups: map<Category, string>): string {
    var out := Header(version, date) + ("\n\n" + Sections(groups, Order));
    CollapseNewlines(Trim(out)) + "\n\n"
  }

  lemma CollapseStart(s: string)
    requires s != [] && s[0] != '\n'
    ensures CollapseNewlines(s) == [s[0]] + CollapseNewlines(s[1..])
  {
  }

  /** A newline-free prefix passes through the collapse untouched. */
  lemma {:induction false} CollapsePrefix(p: string, q: string)
    requires '\n' !in p
    ensures CollapseNewlines(p + q) == p + CollapseNewlines(q)
    decreases |p|
  {
    if p != [] {
      assert p[0] in p;
      assert (p + q)[0] == p[0];
      assert (p + q)[1..] == p[1..] + q;
      CollapseStart(p + q);
      CollapsePrefix(p[1..], q);
      calc {
        CollapseNewlines(p + q);
        [p[0]] + CollapseNewlines(p[1..] + q);
        [p[0]] + (p[1..] + CollapseNewlines(q));
        { assert p == [p[0]] + p[1..]; }
        p + CollapseNewlines(q);
      }
    } else {
      assert p + q == q;
    }
  }

  /** At most two newlines, then a string that does not start with one: no triple appears. */
  lemma JoinNoTriple(p: string, r: string)
    requires |p| <= 2 && NoTripleNewline(r) && (r == [] || r[0] != '\n')
    ensures NoTripleNewline(p + r)
  {
    var s := p + r;
    forall k | 0 <= k < |s| - 2 ensures !(s[k] == '\n' && s[k + 1] == '\n' && s[k + 2] == '\n') {
      if k >= |p| {
        assert s[k] == r[k - |p|] && s[k + 1] == r[k - |p| + 1] && s[k + 2] == r[k - |p| + 2];
      } else {
        var m := |p| - k;
        assert 1 <= m <= 2;
        assert s[k + m] == r[0];
      }
    }
  }

  lemma ConsNoTriple(c: char, r: string)
    requires c != '\n' && NoTripleNewline(r)
    ensures NoTripleNewline([c] + r)
  {
    var s := [c] + r;
    forall k | 1 <= k < |s| - 2 ensures !(s[k] == '\n' && s[k + 1] == '\n' && s[k + 2] == '\n') {
      assert s[k] == r[k - 1] && s[k + 1] == r[k] && s[k + 2] == r[k + 1];
    }
  }

  lemma SuffixNoTriple(s: string, n: nat)
    requires n <= |s| && NoTripleNewline(s)
    ensures NoTripleNewline(s[n..])
  {
    var t := s[n..];
    forall k | 0 <= k < |t| - 2 ensures !(t[k] == '\n' && t[k + 1] == '\n' && t[k + 2] == '\n') {
      assert t[k] == s[n + k] && t[k + 1] == s[n + k + 1] && t[k + 2] == s[n + k + 2];
    }
  }

  /** The collapse leaves no run of three or more newlines. */
  lemma {:induction false} CollapseNoTriple(s: string)
    ensures NoTripleNewline(CollapseNewlines(s))
    decreases |s|
  {
    if s != [] {
      if s[0] != '\n' {
        CollapseNoTriple(s[1..]);
        ConsNoTriple(s[0], CollapseNewlines(s[1..]));
      } else {
        var n := NewlineRun(s);
        var rest := s[n..];
        CollapseNoTriple(rest);
        if rest != [] {
          CollapseStart(rest);
        }
        JoinNoTriple(if n >= 3 then "\n\n" else s[..n], CollapseNewlines(rest));
      }
    }
  }

  /** A string that does not end in a newline keeps its last character through the collapse. */
  lemma {:induction false} CollapseLast(s: string)
    requires s != [] && s[|s| - 1] != '\n'
    ensures var r := CollapseNewlines(s); r != [] && r[|r| - 1] == s[|s| - 1]
    decreases |s|
  {
    if s[0] != '\n' {
      if |s| > 1 {
        CollapseLast(s[1..]);
      }
    } else {
      var n := NewlineRun(s);
      assert n < |s|;
      CollapseLast(s[n..]);
    }
  }

  /** A string with no triple newline is left alone by the collapse. */
  lemma {:induction false} CollapseNoOp(s: string)
    requires NoTripleNewline(s)
    ensures CollapseNewlines(s) == s
    decreases |s|
  {
    if s != [] {
      if s[0] != '\n' {
        CollapseNoOp(s[1..]);
      } else {
        var n := NewlineRun(s);
        if |s| > 2 {
          assert !(s[0] == '\n' && s[1] == '\n' && s[2] == '\n');
        }
        assert s == s[..n] + s[n..];
        SuffixNoTriple(s, n);
        CollapseNoOp(s[n..]);
      }
    }
  }

  /** Trimming a string whose leading part `h` starts and ends with a non-space cuts only after `h`. */
  lemma TrimKeepsHead(h: string, rest: string)
    requires h != [] && !IsSpace(h[0]) && !IsSpace(h[|h| - 1])
    ensures var t := Trim(h + rest); |h| <= |t| && t == (h + rest)[..|t|]
  {
    var s := h + rest;
    var i := SkipSpaces(s, 0);
    var j := BackSpaces(s, i, |s|);
    assert s[0] == h[0] && s[|h| - 1] == h[|h| - 1];
  }

  /** Two more newlines after a string that does not end in one make no triple. */
  lemma AppendBlankLine(c: string)
    requires NoTripleNewline(c) && c != [] && c[|c| - 1] != '\n'
    ensures NoTripleNewline(c + "\n\n")
  {
    var s := c + "\n\n";
    forall k | 0 <= k < |s| - 2 ensures !(s[k] == '\n' && s[k + 1] == '\n' && s[k + 2] == '\n') {
      if k + 2 < |c| {
        assert s[k] == c[k] && s[k + 1] == c[k + 1] && s[k + 2] == c[k + 2];
      } else if k + 1 == |c| {
        assert s[k] == c[|c| - 1];
      } else if k + 2 == |c| {
        assert s[k + 1] == c[|c| - 1];
      }
    }
  }

  /**
   * The section starts with its `## version (date)` header, ends with exactly
   * one blank line (two newlines after a non-newline) and has no run of three
   * newlines anywhere.
   */
  lemma BuildMarkdownShape(version: string, date: string, groups: map<Category, string>)
    requires '\n' !in version && '\n' !in date
    ensures var r := BuildMarkdown(version, date, groups);
      StartsWith(r, Header(version, date)) && EndsWith(r, "\n\n") && |r| >= 3 && r[|r| - 3] != '\n'
      && NoTripleNewline(r)
  {
    var h := Header(version, date);
    var rest := "\n\n" + Sections(groups, Order);
    TrimKeepsHead(h, rest);
    CollapsedShape(h, Trim(h + rest));
  }

  /** Collapsing and appending a blank line to a trimmed text that starts with the newline-free `h`. */
  lemma CollapsedShape(h: string, t: string)
    requires '\n' !in h && |h| <= |t| && t[..|h|] == h && t != [] && t[|t| - 1] != '\n'
    ensures var r := CollapseNewlines(t) + "\n\n";
      StartsWith(r, h) && EndsWith(r, "\n\n") && |r| >= 3 && r[|r| - 3] != '\n' && NoTripleNewline(r)
  {
    assert t == h + t[|h|..];
    CollapsePrefix(h, t[|h|..]);
    var c := CollapseNewlines(t);
    CollapseLast(t);
    CollapseNoTriple(t);
    AppendBlankLine(c);
  }

  /** Two strings without a triple newline, one of them not newline at the seam, join without one. */
  lemma ConcatNoTriple(a: string, b: string)
    requires NoTripleNewline(a) && NoTripleNewline(b)
    requires a == [] || b == [] || a[|a| - 1] != '\n' || b[0] != '\n'
    ensures NoTripleNewline(a + b)
  {
    var s := a + b;
    forall k | 0 <= k < |s| - 2 ensures !(s[k] == '\n' && s[k + 1] == '\n' && s[k + 2] == '\n') {
      if k + 2 < |a| {
        assert s[k] == a[k] && s[k + 1] == a[k + 1] && s[k + 2] == a[k + 2];
      } else if k >= |a| {
        assert s[k] == b[k - |a|] && s[k + 1] == b[k - |a| + 1] && s[k + 2] == b[k - |a| + 2];
      } else if k + 1 == |a| {
        assert s[k] == a[|a| - 1] && s[k + 1] == b[0];
      } else {
        assert s[k + 1] == a[|a| - 1] && s[k + 2] == b[0];
      }
    }
  }

  /** Short strings with no newline pair to spare. */
  lemma ShortNoTriple(s: string)
    requires |s| <= 2 || '\n' !in s
    ensures NoTripleNewline(s)
  {
    if '\n' !in s {
      forall k | 0 <= k < |s| - 2 ensures s[k] != '\n' {
        assert s[k] in s;
      }
    }
  }

  /**
   * Bucket text as the changelog loop produces it: empty, or lines that
   * each end in one newline, with no blank run of two lines and no leading
   * newline.
   */
  predicate WellFormedBucket(g: string) {
    g == [] || (|g| >= 2 && g[0] != '\n' && g[|g| - 1] == '\n' && !IsSpace(g[|g| - 2]) && NoTripleNewline(g))
  }

  /** The shape of a titled block or of a run of them: starts with `#`, ends in a blank line after a non-space. */
  predicate BlockShaped(s: string) {
    NoTripleNewline(s) && |s| >= 3 && s[0] == '#' && s[|s| - 1] == '\n' && s[|s| - 2] == '\n' && !IsSpace(s[|s| - 3])
  }

  lemma AppendNewline(g: string)
    requires NoTripleNewline(g) && |g| >= 2 && g[|g| - 2] != '\n'
    ensures NoTripleNewline(g + "\n")
  {
    var s := g + "\n";
    forall k | 0 <= k < |s| - 2 ensures !(s[k] == '\n' && s[k + 1] == '\n' && s[k + 2] == '\n') {
      if k + 2 < |g| {
        assert s[k] == g[k] && s[k + 1] == g[k + 1] && s[k + 2] == g[k + 2];
      } else {
        assert s[k] == g[|g| - 2];
      }
    }
  }

  lemma BlockShape(c: Category, g: string)
    requires g != [] && WellFormedBucket(g)
    ensures BlockShaped(Block(c, g))
  {
    var t := Title(c);
    assert '\n' !in t;
    ShortNoTriple(t);
    ShortNoTriple("\n");
    AppendNewline(g);
    ConcatNoTriple("\n", g + "\n");
    ConcatNoTriple(t, "\n" + (g + "\n"));
    var block := t + "\n" + g + "\n";
    assert block == t + ("\n" + (g + "\n"));
    assert block[|block| - 3] == g[|g| - 2];
  }

  lemma BlockShapedConcat(a: string, b: string)
    requires BlockShaped(a) && (b == [] || BlockShaped(b))
    ensures BlockShaped(a + b)
  {
    if b != [] {
      ConcatNoTriple(a, b);
      var s := a + b;
      assert s[|s| - 3..] == b[|b| - 3..];
    } else {
      assert a + b == a;
    }
  }

  /** The titled blocks together: empty, or shaped like one block. */
  lemma {:induction false} SectionsShape(groups: map<Category, string>, cats: seq<Category>)
    requires forall c :: WellFormedBucket(Lookup(groups, c))
    ensures var s := Sections(groups, cats); s == [] || BlockShaped(s)
  {
    if cats != [] {
      var g := Lookup(groups, cats[0]);
      SectionsShape(groups, cats[1..]);
      if g != "" {
        BlockShape(cats[0], g);
        BlockShapedConcat(Block(cats[0], g), Sections(groups, cats[1..]));
      } else {
        assert Sections(groups, cats) == Sections(groups, cats[1..]);
      }
    }
  }

  /** Trimming `p + "\n\n" + q` where `q` is empty or ends in a blank line after a non-space. */
  lemma TrimSections(h: string, s: string)
    requires h != [] && !IsSpace(h[0]) && !IsSpace(h[|h| - 1])
    requires s == [] || (|s| >= 3 && s[|s| - 1] == '\n' && s[|s| - 2] == '\n' && !IsSpace(s[|s| - 3]))
    ensures Trim(h + ("\n\n" + s)) == if s == [] then h else h + "\n\n" + s[..|s| - 2]
  {
    var x := h + ("\n\n" + s);
    var i := SkipSpaces(x, 0);
    assert x[0] == h[0];
    var e := if s == [] then |h| else |x| - 2;
    assert !IsSpace(x[e - 1]);
    assert BackSpaces(x, 0, |x|) == e by {
      if s == [] {
        assert x[|h|] == '\n' && x[|h| + 1] == '\n';
      } else {
        assert x[|x| - 1] == '\n' && x[|x| - 2] == '\n';
        assert x[|x| - 3] == s[|s| - 3];
      }
    }
    assert x[..e] == if s == [] then h else h + "\n\n" + s[..|s| - 2];
  }

  /**
   * For well-formed buckets (the changelog loop fills only such buckets, see
   * `Changelog.BucketsWellFormed`), the section is exactly the header, a blank
   * line and the titled blocks of the non-empty buckets in the fixed order:
   * the trim and the newline collapse change nothing.
   */
  lemma BuildMarkdownOfWellFormed(version: string, date: string, groups: map<Category, string>)
    requires '\n' !in version && '\n' !in date
    requires forall c :: WellFormedBucket(Lookup(groups, c))
    ensures BuildMarkdown(version, date, groups) == Header(version, date) + "\n\n" + Sections(groups, Order)
  {
    var h := Header(version, date);
    var s := Sections(groups, Order);
    HeaderFacts(version, date);
    SectionsShape(groups, Order);
    TrimSections(h, s);
    HeadedNoCollapse(h, s);
  }

  lemma HeadedNoCollapse(h: string, s: string)
    requires '\n' !in h && (s == [] || BlockShaped(s))
    ensures var t := if s == [] then h else h + "\n\n" + s[..|s| - 2];
      CollapseNewlines(t) + "\n\n" == h + "\n\n" + s
  {
    var t := if s == [] then h else h + "\n\n" + s[..|s| - 2];
    ShortNoTriple(h);
    if s != [] {
      PrefixNoTriple(s, |s| - 2);
      ShortNoTriple("\n\n");
      ConcatNoTriple("\n\n", s[..|s| - 2]);
      ConcatNoTriple(h, "\n\n" + s[..|s| - 2]);
      assert t == h + ("\n\n" + s[..|s| - 2]);
      assert s == s[..|s| - 2] + "\n\n";
    }
    CollapseNoOp(t);
  }

  lemma HeaderFacts(version: string, date: string)
    requires '\n' !in version && '\n' !in date
    ensures var h := Header(version, date); h != [] && h[0] == '#' && h[|h| - 1] == ')' && '\n' !in h
  {
  }

  lemma PrefixNoTriple(s: string, n: nat)
    requires n <= |s| && NoTripleNewline(s)
    ensures NoTripleNewline(s[..n])
  {
    var t := s[..n];
    forall k | 0 <= k < |t| - 2 ensures !(t[k] == '\n' && t[k + 1] == '\n' && t[k + 2] == '\n') {
      assert t[k] == s[k] && t[k + 1] == s[k + 1] && t[k + 2] == s[k + 2];
    }
  }
}
