/** The file utilities of the loader: finding markdown files in a directory
    walk, turning the HTML rendered from a markdown file into plain text, and
    naming the file (`source`, `filename`, `directory`). */
module Utils {
  import opened Values
  import opened PyStr
  import opened PyPath

  // ===========================================================================
  // Finding markdown files

  /** A file is a markdown file when its lower-cased name ends in ".md" or ".markdown". */
  predicate IsMarkdownName(name: string)
  {
    EndsWith(Lower(name), ".md") || EndsWith(Lower(name), ".markdown")
  }

  /** One triple `(root, dirs, files)` of an `os.walk` listing. */
  datatype WalkStep = WalkStep(root: string, dirs: seq<string>, files: seq<string>)

  /** The paths `join(root, f)` of the markdown names `f` among `names`, in order. */
  function SelectIn(root: string, names: seq<string>): seq<string>
    decreases |names|
  {
    if names == [] then []
    else
      var f := names[|names| - 1];
      SelectIn(root, names[..|names| - 1]) + (if IsMarkdownName(f) then [Join(root, f)] else [])
  }

  /** The markdown paths of a whole walk listing, in the order the walk visits them. */
  function MarkdownPaths(walk: seq<WalkStep>): seq<string>
    decreases |walk|
  {
    if walk == [] then []
    else
      var step := walk[|walk| - 1];
      MarkdownPaths(walk[..|walk| - 1]) + SelectIn(step.root, step.files)
  }

  /** `FileUtils.get_markdown_files`: the walk listing is given, the selection
      loops over its directories and their files. */
  method GetMarkdownFiles(walk: seq<WalkStep>) returns (markdownFiles: seq<string>)
    ensures markdownFiles == MarkdownPaths(walk)
  {
    markdownFiles := [];
    for i := 0 to |walk|
      invariant markdownFiles == MarkdownPaths(walk[..i])
    {
      var step := walk[i];
      for j := 0 to |step.files|
        invariant markdownFiles == MarkdownPaths(walk[..i]) + SelectIn(step.root, step.files[..j])
      {
        var file := step.files[j];
        assert step.files[..j + 1][..j] == step.files[..j];
        if IsMarkdownName(file) {
          markdownFiles := markdownFiles + [Join(step.root, file)];
        }
      }
      assert step.files[..|step.files|] == step.files;
      assert walk[..i + 1][..i] == walk[..i];
    }
    assert walk[..|walk|] == walk;
  }

  /** Some name of `names` is a markdown name that joins with `root` to give `p`. */
  predicate Lists(root: string, names: seq<string>, p: string)
  {
    exists j :: 0 <= j < |names| && IsMarkdownName(names[j]) && p == Join(root, names[j])
  }

  /** Some directory of the walk lists a markdown name that joins with it to give `p`. */
  predicate WalkLists(walk: seq<WalkStep>, p: string)
  {
    exists i :: 0 <= i < |walk| && Lists(walk[i].root, walk[i].files, p)
  }

  lemma {:induction false} SelectInMembership(root: string, names: seq<string>, p: string)
    ensures p in SelectIn(root, names) <==> Lists(root, names, p)
    decreases |names|
  {
    if names != [] {
      var init := names[..|names| - 1];
      var f := names[|names| - 1];
      SelectInMembership(root, init, p);
      ListsSnoc(root, names, p);
      assert p in SelectIn(root, names) <==>
             p in SelectIn(root, init) || (IsMarkdownName(f) && p == Join(root, f));
    }
  }

  lemma ListsSnoc(root: string, names: seq<string>, p: string)
    requires names != []
    ensures Lists(root, names, p) <==>
            Lists(root, names[..|names| - 1], p)
            || (IsMarkdownName(names[|names| - 1]) && p == Join(root, names[|names| - 1]))
  {
    var init := names[..|names| - 1];
    if Lists(root, init, p) {
      var j :| 0 <= j < |init| && IsMarkdownName(init[j]) && p == Join(root, init[j]);
      assert names[j] == init[j];
    }
    if Lists(root, names, p) {
      var j :| 0 <= j < |names| && IsMarkdownName(names[j]) && p == Join(root, names[j]);
      if j < |init| {
        assert init[j] == names[j];
      }
    }
  }

  /** A path is selected exactly when some directory of the walk lists a
      markdown name that joins with the directory to give that path. */
  lemma {:induction false} MarkdownPathsMembership(walk: seq<WalkStep>, p: string)
    ensures p in MarkdownPaths(walk) <==> WalkLists(walk, p)
    decreases |walk|
  {
    if walk != [] {
      var init := walk[..|walk| - 1];
      var step := walk[|walk| - 1];
      MarkdownPathsMembership(init, p);
      SelectInMembership(step.root, step.files, p);
      WalkListsSnoc(walk, p);
      assert p in MarkdownPaths(walk) <==>
             p in MarkdownPaths(init) || p in SelectIn(step.root, step.files);
    }
  }

  lemma WalkListsSnoc(walk: seq<WalkStep>, p: string)
    requires walk != []
    ensures WalkLists(walk, p) <==>
            WalkLists(walk[..|walk| - 1], p)
            || Lists(walk[|walk| - 1].root, walk[|walk| - 1].files, p)
  {
    var init := walk[..|walk| - 1];
    if WalkLists(init, p) {
      var i :| 0 <= i < |init| && Lists(init[i].root, init[i].files, p);
      assert walk[i] == init[i];
    }
    if WalkLists(walk, p) {
      var i :| 0 <= i < |walk| && Lists(walk[i].root, walk[i].files, p);
      if i < |init| {
        assert init[i] == walk[i];
      }
    }
  }

  /** Selection follows the walk: the paths found in an earlier part of the
      listing come first, and parts do not influence each other. */
  lemma {:induction false} MarkdownPathsAppend(w1: seq<WalkStep>, w2: seq<WalkStep>)
    ensures MarkdownPaths(w1 + w2) == MarkdownPaths(w1) + MarkdownPaths(w2)
    decreases |w2|
  {
    if w2 != [] {
      var w := w1 + w2;
      assert w[..|w| - 1] == w1 + w2[..|w2| - 1];
      assert w[|w| - 1] == w2[|w2| - 1];
      MarkdownPathsAppend(w1, w2[..|w2| - 1]);
    } else {
      assert w1 + w2 == w1;
    }
  }

  /** The number of file names the walk lists. */
  function FileCount(walk: seq<WalkStep>): nat
    decreases |walk|
  {
    if walk == [] then 0 else FileCount(walk[..|walk| - 1]) + |walk[|walk| - 1].files|
  }

  lemma {:induction false} SelectInBound(root: string, names: seq<string>)
    ensures |SelectIn(root, names)| <= |names|
    decreases |names|
  {
    if names != [] {
      SelectInBound(root, names[..|names| - 1]);
    }
  }

  /** Nothing is added: at most one path per listed file name. */
  lemma {:induction false} MarkdownPathsBound(walk: seq<WalkStep>)
    ensures |MarkdownPaths(walk)| <= FileCount(walk)
    decreases |walk|
  {
    if walk != [] {
      MarkdownPathsBound(walk[..|walk| - 1]);
      SelectInBound(walk[|walk| - 1].root, walk[|walk| - 1].files);
    }
  }

  lemma BasenameOfJoin(root: string, f: string)
    requires f != [] && '/' !in f
    ensures Basename(Join(root, f)) == f
  {
    assert f[0] in f;
    if root == [] {
      assert Join(root, f) == f;
      SinglePart(f);
    } else if root[|root| - 1] == '/' {
      assert Join(root, f) == root + f;
      BasenameAfterSlashEnd(root, f);
    } else {
      assert Join(root, f) == root + "/" + f;
      BasenameAfterSlash(root, f);
    }
  }


  /** Every selected path names a markdown file: its base name is the listed
      name (listed names never contain a slash). */
  lemma SelectedBasenamesAreMarkdown(walk: seq<WalkStep>, p: string)
    requires forall i, j :: 0 <= i < |walk| && 0 <= j < |walk[i].files| ==> '/' !in walk[i].files[j]
    requires p in MarkdownPaths(walk)
    ensures IsMarkdownName(Basename(p))
  {
    MarkdownPathsMembership(walk, p);
    var i :| 0 <= i < |walk| && Lists(walk[i].root, walk[i].files, p);
    var j :| 0 <= j < |walk[i].files| && IsMarkdownName(walk[i].files[j]) && p == Join(walk[i].root, walk[i].files[j]);
    var f := walk[i].files[j];
    assert f != [];
    BasenameOfJoin(walk[i].root, f);
  }

  /** The extension test ignores case ... */
  lemma MarkdownNamesSelected()
    ensures IsMarkdownName("NOTES.MD") && IsMarkdownName("guide.Markdown") && IsMarkdownName(".md")
  {
    LowerNotes();
    LowerGuide();
    LowerUnchanged(".md");
  }

  lemma LowerNotes()
    ensures Lower("NOTES.MD") == "notes.md"
  {
  }

  lemma LowerGuide()
    ensures Lower("guide.Markdown") == "guide.markdown"
  {
  }

  /** ... and looks only at the end of the name. */
  lemma OtherNamesRejected()
    ensures !IsMarkdownName("a.md.bak") && !IsMarkdownName("readme") && !IsMarkdownName("md")
  {
    LowerUnchanged("a.md.bak");
    LowerUnchanged("readme");
    LowerUnchanged("md");
  }

  /** Any name ending in ".md" or ".MD" is selected, whatever comes before. */
  lemma MarkdownExtensionSelected(stem: string)
    ensures IsMarkdownName(stem + ".md") && IsMarkdownName(stem + ".MD")
  {
    var a, b := Lower(stem + ".md"), Lower(stem + ".MD");
    assert a[|a| - 3..] == ".md" by {
      assert a[|a| - 3] == '.' && a[|a| - 2] == 'm' && a[|a| - 1] == 'd';
    }
    assert b[|b| - 3..] == ".md" by {
      assert b[|b| - 3] == '.' && b[|b| - 2] == 'm' && b[|b| - 1] == 'd';
    }
  }

  // ===========================================================================
  // HTML to text

  /** The replacements `read_markdown_file` applies, in order: the paragraph
      tags, then the opening and closing tag of each heading level. */
  const HtmlRules: seq<(string, string)> := [
    ("<p>", ""), ("</p>", "\n\n"),
    ("<h1>", "# "), ("</h1>", "\n\n"),
    ("<h2>", "## "), ("</h2>", "\n\n"),
    ("<h3>", "### "), ("</h3>", "\n\n"),
    ("<h4>", "#### "), ("</h4>", "\n\n"),
    ("<h5>", "##### "), ("</h5>", "\n\n"),
    ("<h6>", "###### "), ("</h6>", "\n\n")
  ]

  predicate PatternsNonEmpty(rules: seq<(string, string)>)
  {
    forall k :: 0 <= k < |rules| ==> rules[k].0 != []
  }

  /** `s.replace(p0, r0).replace(p1, r1)...` */
  function ApplyRules(s: string, rules: seq<(string, string)>): string
    requires PatternsNonEmpty(rules)
    decreases |rules|
  {
    if rules == [] then s else ApplyRules(Replace(s, rules[0].0, rules[0].1), rules[1..])
  }

  /** The plain text `read_markdown_file` makes of the HTML rendered from a file. */
  function HtmlToText(html: string): string
  {
    ApplyRules(html, HtmlRules)
  }

  lemma {:induction false} ApplyRulesWithoutLead(s: string, rules: seq<(string, string)>)
    requires PatternsNonEmpty(rules) && forall k :: 0 <= k < |rules| ==> rules[k].0[0] == '<'
    requires forall k :: 0 <= k < |rules| ==> '<' !in rules[k].1
    requires '<' !in s
    ensures ApplyRules(s, rules) == s
    decreases |rules|
  {
    if rules != [] {
      ReplaceWithoutLead(s, rules[0].0, rules[0].1);
      ApplyRulesWithoutLead(s, rules[1..]);
    }
  }

  /** Text without any '<' passes through unchanged: every pattern starts with '<'. */
  lemma HtmlToTextWithoutMarkup(html: string)
    requires '<' !in html
    ensures HtmlToText(html) == html
  {
    ApplyRulesWithoutLead(html, HtmlRules);
  }

  // ---------------------------------------------------------------------------
  // HTML seen as plain text runs and tags

  /** A tag: '<', then characters other than '<' and '>', then '>'. */
  predicate IsTag(t: string)
  {
    |t| >= 2 && t[0] == '<' && t[|t| - 1] == '>' && '<' !in t[1..] && '>' !in t[..|t| - 1]
  }

  /** A run of HTML: text containing no '<', or a single tag. */
  datatype Piece = Text(text: string) | Tag(tag: string)

  predicate WellFormedPiece(p: Piece)
  {
    match p
    case Text(x) => '<' !in x
    case Tag(t) => IsTag(t)
  }

  predicate WellFormedPieces(ps: seq<Piece>)
  {
    forall i :: 0 <= i < |ps| ==> WellFormedPiece(ps[i])
  }

  function PieceString(p: Piece): string
  {
    match p
    case Text(x) => x
    case Tag(t) => t
  }

  /** The HTML a sequence of pieces spells out. */
  function Render(ps: seq<Piece>): string
    decreases |ps|
  {
    if ps == [] then "" else PieceString(ps[0]) + Render(ps[1..])
  }

  /** The piece after the rules are applied in order: a tag equal to a pattern
      becomes the replacement text, which no later rule touches. */
  function Rewrite(p: Piece, rules: seq<(string, string)>): Piece
    decreases |rules|
  {
    if rules == [] then p
    else Rewrite(if p == Tag(rules[0].0) then Text(rules[0].1) else p, rules[1..])
  }

  function RewriteAll(ps: seq<Piece>, rules: seq<(string, string)>): (r: seq<Piece>)
    ensures |r| == |ps|
  {
    seq(|ps|, i requires 0 <= i < |ps| => Rewrite(ps[i], rules))
  }

  /** The replacement of the first rule whose pattern is `t`. */
  function Lookup(t: string, rules: seq<(string, string)>): Option<string>
    decreases |rules|
  {
    if rules == [] then None
    else if rules[0].0 == t then Some(rules[0].1)
    else Lookup(t, rules[1..])
  }

  /** Two tags never start one another unless they are equal. */
  lemma TagsPrefixFree(t: string, pat: string, b: string)
    requires IsTag(t) && IsTag(pat)
    ensures pat <= t + b ==> t == pat
  {
    assert forall k :: 0 <= k < |t| - 1 ==> t[k] != '>' by {
      assert forall k :: 0 <= k < |t| - 1 ==> t[..|t| - 1][k] == t[k];
    }
    assert forall k :: 0 <= k < |pat| - 1 ==> pat[k] != '>' by {
      assert forall k :: 0 <= k < |pat| - 1 ==> pat[..|pat| - 1][k] == pat[k];
    }
    var s := t + b;
    assert forall k :: 0 <= k < |t| ==> s[k] == t[k];
    assert pat <= s ==> forall k :: 0 <= k < |pat| ==> pat[k] == s[k];
    var m := if |pat| <= |t| then |pat| - 1 else |t| - 1;
    assert pat <= s ==> pat[m] == t[m];
    assert pat <= s ==> |pat| == |t|;
    assert pat <= s ==> pat == s[..|t|];
    assert s[..|t|] == t;
  }

  lemma ReplaceTagFirst(t: string, b: string, pat: string, rep: string)
    requires IsTag(t) && IsTag(pat)
    ensures Replace(t + b, pat, rep) == (if t == pat then rep else t) + Replace(b, pat, rep)
  {
    var s := t + b;
    if t == pat {
      assert s[..|pat|] == pat && s[|pat|..] == b;
    } else {
      ReplaceOtherTagFirst(t, b, pat, rep);
    }
  }

  /** A leading tag other than the pattern is copied through. */
  lemma ReplaceOtherTagFirst(t: string, b: string, pat: string, rep: string)
    requires IsTag(t) && IsTag(pat) && t != pat
    ensures Replace(t + b, pat, rep) == t + Replace(b, pat, rep)
  {
    var s := t + b;
    if |s| >= |pat| {
      assert s[..|pat|] != pat by {
        TagsPrefixFree(t, pat, b);
      }
      ReplaceSkipFirst(s, pat, rep);
      assert s[0] == t[0] && s[1..] == t[1..] + b;
      ReplacePlainPrefix(t[1..], b, pat, rep);
      assert [t[0]] + t[1..] == t;
    } else {
      assert Replace(b, pat, rep) == b;
    }
  }

  /** Replacing a tag pattern in rendered pieces replaces exactly the pieces
      that are that tag. */
  lemma {:induction false} ReplaceRender(ps: seq<Piece>, pat: string, rep: string)
    requires WellFormedPieces(ps) && IsTag(pat)
    ensures Replace(Render(ps), pat, rep) ==
            Render(seq(|ps|, i requires 0 <= i < |ps| => if ps[i] == Tag(pat) then Text(rep) else ps[i]))
    decreases |ps|
  {
    var subst := seq(|ps|, i requires 0 <= i < |ps| => if ps[i] == Tag(pat) then Text(rep) else ps[i]);
    if ps == [] {
      assert subst == [];
    } else {
      assert WellFormedPiece(ps[0]);
      assert WellFormedPieces(ps[1..]) by {
        forall i | 0 <= i < |ps[1..]| ensures WellFormedPiece(ps[1..][i]) {
          assert ps[1..][i] == ps[i + 1];
        }
      }
      ReplaceRender(ps[1..], pat, rep);
      var tail := seq(|ps[1..]|, i requires 0 <= i < |ps[1..]| => if ps[1..][i] == Tag(pat) then Text(rep) else ps[1..][i]);
      assert subst[1..] == tail;
      match ps[0]
      case Text(x) =>
        ReplacePlainPrefix(x, Render(ps[1..]), pat, rep);
      case Tag(t) =>
        ReplaceTagFirst(t, Render(ps[1..]), pat, rep);
    }
  }

  predicate TagRules(rules: seq<(string, string)>)
  {
    forall k :: 0 <= k < |rules| ==> IsTag(rules[k].0) && '<' !in rules[k].1
  }

  /** Applying tag rules to rendered pieces rewrites each piece on its own. */
  lemma {:induction false} ApplyRulesRender(ps: seq<Piece>, rules: seq<(string, string)>)
    requires WellFormedPieces(ps) && TagRules(rules)
    ensures PatternsNonEmpty(rules)
    ensures ApplyRules(Render(ps), rules) == Render(RewriteAll(ps, rules))
    decreases |rules|
  {
    if rules != [] {
      var (pat, rep) := rules[0];
      assert IsTag(pat) && '<' !in rep;
      var subst := seq(|ps|, i requires 0 <= i < |ps| => if ps[i] == Tag(pat) then Text(rep) else ps[i]);
      ReplaceRender(ps, pat, rep);
      assert WellFormedPieces(subst);
      assert TagRules(rules[1..]) by {
        forall k | 0 <= k < |rules[1..]| ensures IsTag(rules[1..][k].0) && '<' !in rules[1..][k].1 {
          assert rules[1..][k] == rules[k + 1];
        }
      }
      ApplyRulesRender(subst, rules[1..]);
      assert RewriteAll(subst, rules[1..]) == RewriteAll(ps, rules);
    } else {
      assert RewriteAll(ps, rules) == ps;
    }
  }

  /** A text piece is never rewritten; a tag becomes the replacement of the
      first rule for it, or stays when no rule names it. */
  lemma {:induction false} RewriteIsLookup(p: Piece, rules: seq<(string, string)>)
    ensures p.Text? ==> Rewrite(p, rules) == p
    ensures p.Tag? ==> Rewrite(p, rules) == match Lookup(p.tag, rules)
                                             case Some(rep) => Text(rep)
                                             case None => p
    decreases |rules|
  {
    if rules != [] {
      if p == Tag(rules[0].0) {
        RewriteIsLookup(Text(rules[0].1), rules[1..]);
      } else {
        RewriteIsLookup(p, rules[1..]);
      }
    }
  }

  lemma HtmlRulesAreTagRules()
    ensures TagRules(HtmlRules)
  {
    forall k | 0 <= k < |HtmlRules| ensures IsTag(HtmlRules[k].0) && '<' !in HtmlRules[k].1 {
    }
  }

  /** The piece a run of HTML becomes under `rules`: a tag some rule names
      turns into the replacement of the first such rule. */
  function ConvertPiece(p: Piece, rules: seq<(string, string)>): Piece
  {
    match p
    case Text(_) => p
    case Tag(t) => match Lookup(t, rules) case Some(rep) => Text(rep) case None => p
  }

  function ConvertAll(ps: seq<Piece>, rules: seq<(string, string)>): (r: seq<Piece>)
    ensures |r| == |ps|
  {
    seq(|ps|, i requires 0 <= i < |ps| => ConvertPiece(ps[i], rules))
  }

  lemma RewriteAllIsConvertAll(ps: seq<Piece>, rules: seq<(string, string)>)
    ensures RewriteAll(ps, rules) == ConvertAll(ps, rules)
  {
    forall i | 0 <= i < |ps| ensures RewriteAll(ps, rules)[i] == ConvertAll(ps, rules)[i] {
      RewriteIsLookup(ps[i], rules);
    }
  }

  /** For HTML made of '<'-free text and tags, the conversion replaces each
      paragraph and heading tag by its text and leaves everything else alone. */
  lemma HtmlToTextOfPieces(ps: seq<Piece>)
    requires WellFormedPieces(ps)
    ensures HtmlToText(Render(ps)) == Render(ConvertAll(ps, HtmlRules))
  {
    HtmlRulesAreTagRules();
    ApplyRulesRender(ps, HtmlRules);
    RewriteAllIsConvertAll(ps, HtmlRules);
  }

  /** The first rule naming `t` decides. */
  lemma {:induction false} LookupAt(t: string, rules: seq<(string, string)>, k: nat)
    requires k < |rules| && rules[k].0 == t
    requires forall j :: 0 <= j < k ==> rules[j].0 != t
    ensures Lookup(t, rules) == Some(rules[k].1)
    decreases k
  {
    if k > 0 {
      LookupAt(t, rules[1..], k - 1);
    }
  }

  lemma {:induction false} LookupAbsent(t: string, rules: seq<(string, string)>)
    requires forall j :: 0 <= j < |rules| ==> rules[j].0 != t
    ensures Lookup(t, rules) == None
    decreases |rules|
  {
    if rules != [] {
      LookupAbsent(t, rules[1..]);
    }
  }

  lemma RenderThree(a: Piece, b: Piece, c: Piece)
    ensures Render([a, b, c]) == PieceString(a) + PieceString(b) + PieceString(c)
  {
    assert [a, b, c][1..] == [b, c];
    assert [b, c][1..] == [c];
    assert [c][1..] == [];
    assert Render([c]) == PieceString(c);
    assert Render([b, c]) == PieceString(b) + PieceString(c);
  }

  /** The heading tags of level `n`. */
  function HeadingOpen(n: nat): string
    requires 1 <= n <= 6
  {
    "<h" + [DigitChar(n)] + ">"
  }

  function HeadingClose(n: nat): string
    requires 1 <= n <= 6
  {
    "</h" + [DigitChar(n)] + ">"
  }

  /** `n` hash marks. */
  function Hashes(n: nat): (r: string)
    ensures |r| == n && forall i :: 0 <= i < n ==> r[i] == '#'
  {
    seq(n, _ => '#')
  }

  /** Rules `2n` and `2n + 1` are those of heading level `n`. */
  lemma HeadingRules(n: nat)
    requires 1 <= n <= 6
    ensures HtmlRules[2 * n] == (HeadingOpen(n), Hashes(n) + " ")
    ensures HtmlRules[2 * n + 1] == (HeadingClose(n), "\n\n")
  {
    var h := Hashes(n) + " ";
    assert |h| == n + 1 && h[n] == ' ' && forall i :: 0 <= i < n ==> h[i] == '#';
    if n == 1 {
      assert h == "# ";
      assert DigitChar(1) == '1';
      assert HeadingOpen(1) == "<h1>" && HeadingClose(1) == "</h1>";
    } else if n == 2 {
      assert h == "## ";
      assert DigitChar(2) == '2';
      assert HeadingOpen(2) == "<h2>" && HeadingClose(2) == "</h2>";
    } else if n == 3 {
      assert h == "### ";
      assert DigitChar(3) == '3';
      assert HeadingOpen(3) == "<h3>" && HeadingClose(3) == "</h3>";
    } else if n == 4 {
      assert h == "#### ";
      assert DigitChar(4) == '4';
      assert HeadingOpen(4) == "<h4>" && HeadingClose(4) == "</h4>";
    } else if n == 5 {
      assert h == "##### ";
      assert DigitChar(5) == '5';
      assert HeadingOpen(5) == "<h5>" && HeadingClose(5) == "</h5>";
    } else {
      assert h == "###### ";
      assert DigitChar(6) == '6';
      assert HeadingOpen(6) == "<h6>" && HeadingClose(6) == "</h6>";
    }
  }

  /** Each pattern is named by one rule only. */
  lemma PatternsDistinct()
    ensures forall j, k :: 0 <= j < k < |HtmlRules| ==> HtmlRules[j].0 != HtmlRules[k].0
  {
    forall j, k | 0 <= j < k < |HtmlRules| ensures HtmlRules[j].0 != HtmlRules[k].0 {
      var a, b := HtmlRules[j].0, HtmlRules[k].0;
      if |a| == |b| {
        assert |a| >= 4;
        assert a[1] != b[1] || a[2] != b[2] || a[3] != b[3];
      }
    }
  }

  lemma HeadingLookup(n: nat)
    requires 1 <= n <= 6
    ensures IsTag(HeadingOpen(n)) && IsTag(HeadingClose(n))
    ensures Lookup(HeadingOpen(n), HtmlRules) == Some(Hashes(n) + " ")
    ensures Lookup(HeadingClose(n), HtmlRules) == Some("\n\n")
  {
    HeadingRules(n);
    HtmlRulesAreTagRules();
    PatternsDistinct();
    LookupAt(HeadingOpen(n), HtmlRules, 2 * n);
    LookupAt(HeadingClose(n), HtmlRules, 2 * n + 1);
  }

  /** An element `<open>X<close>` around '<'-free text converts to the two
      replacements around `X`. */
  lemma ElementToText(rules: seq<(string, string)>, open: string, x: string, close: string, ro: string, rc: string)
    requires TagRules(rules) && IsTag(open) && IsTag(close) && '<' !in x
    requires Lookup(open, rules) == Some(ro) && Lookup(close, rules) == Some(rc)
    ensures PatternsNonEmpty(rules)
    ensures ApplyRules(open + x + close, rules) == ro + x + rc
  {
    var ps := [Tag(open), Text(x), Tag(close)];
    RenderThree(Tag(open), Text(x), Tag(close));
    ApplyRulesRender(ps, rules);
    RewriteAllIsConvertAll(ps, rules);
    assert ConvertAll(ps, rules) == [Text(ro), Text(x), Text(rc)];
    RenderThree(Text(ro), Text(x), Text(rc));
  }

  /** The conversion of one element, for tags the replacement table names. */
  lemma HtmlElementToText(open: string, x: string, close: string, ro: string, rc: string)
    requires IsTag(open) && IsTag(close) && '<' !in x
    requires Lookup(open, HtmlRules) == Some(ro) && Lookup(close, HtmlRules) == Some(rc)
    ensures HtmlToText(open + x + close) == ro + x + rc
  {
    HtmlRulesAreTagRules();
    ElementToText(HtmlRules, open, x, close, ro, rc);
  }

  lemma ParagraphLookup()
    ensures IsTag("<p>") && IsTag("</p>")
    ensures Lookup("<p>", HtmlRules) == Some("") && Lookup("</p>", HtmlRules) == Some("\n\n")
  {
    LookupAt("<p>", HtmlRules, 0);
    LookupAt("</p>", HtmlRules, 1);
  }

  /** `<p>X</p>` becomes `X` followed by a blank line. */
  lemma ParagraphToText(x: string)
    requires '<' !in x
    ensures HtmlToText("<p>" + x + "</p>") == x + "\n\n"
  {
    ParagraphLookup();
    HtmlElementToText("<p>", x, "</p>", "", "\n\n");
    assert "" + x == x;
  }

  /** `<hN>X</hN>` becomes N hash marks, a space, `X` and a blank line. */
  lemma HeadingToText(n: nat, x: string)
    requires 1 <= n <= 6 && '<' !in x
    ensures HtmlToText(HeadingOpen(n) + x + HeadingClose(n)) == Hashes(n) + " " + x + "\n\n"
  {
    HeadingLookup(n);
    HtmlElementToText(HeadingOpen(n), x, HeadingClose(n), Hashes(n) + " ", "\n\n");
  }

  // ---------------------------------------------------------------------------
  // No closing paragraph tag and no heading tag survives

  /** Applying rules whose replacements are non-empty and share no character
      with `q` never creates an occurrence of `q`. */
  lemma {:induction false} ApplyRulesKeepsAbsence(s: string, rules: seq<(string, string)>, q: string)
    requires PatternsNonEmpty(rules) && q != [] && !Occurs(s, q)
    requires forall j :: 0 <= j < |rules| ==> rules[j].1 != [] && Disjoint(q, rules[j].1)
    ensures !Occurs(ApplyRules(s, rules), q)
    decreases |rules|
  {
    if rules != [] {
      ReplaceKeepsAbsence(s, rules[0].0, rules[0].1, q);
      ApplyRulesKeepsAbsence(Replace(s, rules[0].0, rules[0].1), rules[1..], q);
    }
  }

  /** The pattern of rule `k` is gone after the chain, when that rule and every
      later one insert non-empty text sharing no character with it. */
  lemma {:induction false} ApplyRulesRemoves(s: string, rules: seq<(string, string)>, k: nat)
    requires PatternsNonEmpty(rules) && k < |rules|
    requires forall j :: k <= j < |rules| ==> rules[j].1 != [] && Disjoint(rules[k].0, rules[j].1)
    ensures !Occurs(ApplyRules(s, rules), rules[k].0)
    decreases |rules|
  {
    var s' := Replace(s, rules[0].0, rules[0].1);
    if k == 0 {
      ReplaceRemovesPattern(s, rules[0].0, rules[0].1);
      ApplyRulesKeepsAbsence(s', rules[1..], rules[0].0);
    } else {
      ApplyRulesRemoves(s', rules[1..], k - 1);
    }
  }

  /** The characters the replacements insert. */
  predicate InsertedChar(c: char)
  {
    c == '\n' || c == '#' || c == ' '
  }

  /** After conversion no `</p>` and no opening or closing heading tag is left
      anywhere in the text, whatever the HTML. (`<p>` can be: deleting it may
      join the characters around it into a new `<p>`.) */
  lemma HtmlToTextRemovesTags(html: string, k: nat)
    requires 1 <= k < |HtmlRules|
    ensures !Occurs(HtmlToText(html), HtmlRules[k].0)
  {
    assert forall j :: 1 <= j < |HtmlRules| ==> HtmlRules[j].1 != [] && forall c :: c in HtmlRules[j].1 ==> InsertedChar(c);
    assert forall c :: c in HtmlRules[k].0 ==> !InsertedChar(c);
    ApplyRulesRemoves(html, HtmlRules, k);
  }

  // ===========================================================================
  // Reading a file

  /** The directory every source is named relative to. */
  const InputRoot: string := "/volumes/input"

  /** The result of opening and reading a file and rendering its markdown
      (`markdown.markdown`) as HTML, or the failure of any of these. */
  datatype FileRead = Rendered(html: string) | Unreadable(reason: string)

  function MetadataOf(source: string, filename: string, directory: string): (m: Metadata)
    ensures m.Keys == {"source", "filename", "directory"}
  {
    map["source" := JStr(source), "filename" := JStr(filename), "directory" := JStr(directory)]
  }

  /** `FileUtils.read_markdown_file(path)`: the text, with the paragraph and
      heading tags converted, and the file's names. */
  function ReadMarkdownFile(path: string, cwd: string, read: FileRead): (r: Result<(string, Metadata)>)
    ensures r.Ok? <==> read.Rendered? && path != []
    ensures r.Ok? ==> r.value.0 == HtmlToText(read.html)
  {
    match read
    case Unreadable(reason) => Err(reason)
    case Rendered(html) =>
      RelPathDefined(path, InputRoot, cwd);
      match RelPath(path, InputRoot, cwd)
      case None => Err("no path specified")
      case Some(rel) => Ok((HtmlToText(html), MetadataOf(rel, Basename(path), Dirname(rel))))
  }

  lemma InputRootPath()
    ensures RootPath(["volumes", "input"]) == InputRoot
    ensures PlainParts(["volumes", "input"])
  {
    assert JoinAll(["volumes", "input"]) == "volumes/input";
  }

  lemma RelPathBelowInputRoot(cs: seq<string>, cwd: string)
    requires cs != [] && PlainParts(cs)
    ensures RelPath(InputRoot + "/" + JoinAll(cs), InputRoot, cwd) == Some(JoinAll(cs))
  {
    InputRootPath();
    RelPathBelowRoot(["volumes", "input"], cs, cwd);
  }

  lemma ReadMarkdownFileNamed(path: string, cwd: string, html: string, rel: string)
    requires RelPath(path, InputRoot, cwd) == Some(rel)
    ensures ReadMarkdownFile(path, cwd, Rendered(html)) == Ok((HtmlToText(html), MetadataOf(rel, Basename(path), Dirname(rel))))
  {
  }

  /** For a file `/volumes/input/c1/.../cn`: `source` is `c1/.../cn`, `filename`
      is `cn`, and `directory` is `c1/.../c(n-1)`, empty for a file directly in
      the input directory. */
  lemma ReadFileBelowInputRoot(cs: seq<string>, cwd: string, html: string)
    requires cs != [] && PlainParts(cs)
    ensures ReadMarkdownFile(InputRoot + "/" + JoinAll(cs), cwd, Rendered(html))
         == Ok((HtmlToText(html),
                MetadataOf(JoinAll(cs), cs[|cs| - 1], ParentPath(cs))))
  {
    var path := InputRoot + "/" + JoinAll(cs);
    RelPathBelowInputRoot(cs, cwd);
    ReadMarkdownFileNamed(path, cwd, html, JoinAll(cs));
    BasenameDirnameOfJoin(cs);
    BasenameBelow(InputRoot, cs);
  }
}
