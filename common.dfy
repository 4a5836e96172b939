/** The candidate-file pipeline of the line counter: counting the lines of one
    file, the exclusion list and its substring test, duplicate removal,
    exclusion filtering, collecting files from a directory walk, and the
    column arithmetic of the report header and footer. */
module Common {
  import opened Seqs
  import opened PyStrings
  import opened TextFiles

  // ---------------------------------------------------------------------------
  // linecount

  /** The test `linecount` keeps a line by when blank lines are not counted:
      the line is anything but exactly "\n". */
  predicate NotBlank(line: string) {
    line != "\n"
  }

  /** `linecount(path, whitespace)` over the lines `readlines()` returned. */
  function LineCount(lines: seq<string>, whitespace: bool): (n: nat)
    ensures n <= |lines|
  {
    if whitespace then |lines| else |Filter(lines, NotBlank)|
  }

  /** Counting every line gives the number of lines; counting without blank
      lines drops exactly the lines that are "\n" and nothing else, so a line
      of spaces or tabs still counts. */
  lemma {:induction false} LineCountBlankLines(lines: seq<string>)
    ensures LineCount(lines, true) == |lines|
    ensures LineCount(lines, false) == |lines| - multiset(lines)["\n"]
    decreases |lines|
  {
    if lines != [] {
      var init := lines[..|lines| - 1];
      LineCountBlankLines(init);
      assert lines == init + [lines[|lines| - 1]];
    }
  }

  /** A file's lines are counted from its text: every line break of the text
      (after universal-newline translation) ends one line, and so an empty file
      counts 0 in both modes. */
  lemma EmptyFileCountsNothing(whitespace: bool)
    ensures LineCount(ReadLines(""), whitespace) == 0
  {
    assert ReadLines("") == [];
  }

  // ---------------------------------------------------------------------------
  // ExcludedTypes

  /** Some exclusion token occurs anywhere inside `path` (Python's `in` on
      strings: a substring test, not an extension match). */
  predicate Excludes(types: seq<string>, path: string) {
    exists i :: 0 <= i < |types| && IsSubstring(types[i], path)
  }

  /** An empty token, as read from a blank line of the exclusion file, is a
      substring of every path and so excludes everything. */
  lemma EmptyTokenExcludesAll(types: seq<string>, path: string)
    requires "" in types
    ensures Excludes(types, path)
  {
    var i :| 0 <= i < |types| && types[i] == "";
    assert OccursAt("", path, 0);
  }

  /** `ExcludedTypes.parse_exclusions(path)`: one stripped token per line of
      the file, or no tokens when opening it raises `OSError`. */
  function ParseExclusions(f: FileState): (types: seq<string>)
    ensures !f.Present? ==> types == []
    ensures f.Present? ==> |types| == |ReadLines(f.text)|
    ensures f.Present? ==> forall i :: 0 <= i < |types| ==> types[i] == Strip(ReadLines(f.text)[i])
  {
    match f
    case Present(text) => StrippedLines(text)
    case _ => []
  }

  /** A blank line in the exclusion file yields the empty token, and with it
      every path is excluded. */
  lemma BlankLineExcludesAll(text: string, path: string)
    requires "\n" in ReadLines(text)
    ensures Excludes(ParseExclusions(Present(text)), path)
  {
    var lines := ReadLines(text);
    var types := ParseExclusions(Present(text));
    var i :| 0 <= i < |lines| && lines[i] == "\n";
    StripTrailingSpace("", '\n');
    assert [] + ['\n'] == lines[i];
    assert types[i] == "";
    EmptyTokenExcludesAll(types, path);
  }

  /** The Python list handed to `ExcludedTypes` as `ex_container`. The object
      keeps a reference to this very list, so loading tokens into it changes
      the caller's list too. */
  class TokenList {
    var items: seq<string>

    constructor (items: seq<string>)
      ensures this.items == items
    {
      this.items := items;
    }
  }

  /** The loaded exclusion list and its membership test. */
  class ExcludedTypes {
    const types: TokenList

    /** `ExcludedTypes(ex_path, ex_container)`: adopts the container, and
        fills it from the exclusion file only when it is empty. */
    constructor (exPath: FileState, exContainer: TokenList)
      modifies exContainer
      ensures types == exContainer
      ensures old(exContainer.items) != [] ==> exContainer.items == old(exContainer.items)
      ensures old(exContainer.items) == [] ==> exContainer.items == ParseExclusions(exPath)
    {
      types := exContainer;
      new;
      if types.items == [] {
        types.items := types.items + ParseExclusions(exPath);
      }
    }

    /** `excluded(path)`: true exactly when some stored token is a substring
        of `path`; the search stops at the first such token. */
    method Excluded(path: string) returns (b: bool)
      ensures b <==> Excludes(types.items, path)
    {
      var items := types.items;
      for i := 0 to |items|
        invariant forall k :: 0 <= k < i ==> !IsSubstring(items[k], path)
      {
        if IsSubstring(items[i], path) {
          return true;
        }
      }
      return false;
    }
  }

  // ---------------------------------------------------------------------------
  // remove_duplicates

  /** The list `remove_duplicates` builds: each element in the order of its
      first occurrence, later repeats skipped. */
  function Dedup<T(==)>(s: seq<T>): (r: seq<T>)
    ensures NoDups(r)
    ensures forall i :: 0 <= i < |r| ==> r[i] in s
    ensures forall i :: 0 <= i < |s| ==> s[i] in r
    decreases |s|
  {
    if s == [] then []
    else
      var init := s[..|s| - 1];
      var r := Dedup(init);
      var x := s[|s| - 1];
      assert s == init + [x];
      if x in r then r else r + [x]
  }

  /** `remove_duplicates(duplicates)`: keeps the first occurrence of each
      element, appending it to `uniq` the first time it is seen. */
  method RemoveDuplicates<T(==)>(duplicates: seq<T>) returns (uniq: seq<T>)
    ensures uniq == Dedup(duplicates)
  {
    uniq := [];
    for i := 0 to |duplicates|
      invariant uniq == Dedup(duplicates[..i])
    {
      assert duplicates[..i + 1][..i] == duplicates[..i];
      if duplicates[i] !in uniq {
        uniq := uniq + [duplicates[i]];
      }
    }
    assert duplicates[..|duplicates|] == duplicates;
  }

  /** What remains after removing duplicates is a subsequence of the input:
      nothing is reordered and nothing added, and it is never longer. */
  lemma {:induction false} DedupIsSubsequence<T>(s: seq<T>)
    ensures IsSubsequence(Dedup(s), s)
    ensures |Dedup(s)| <= |s|
    decreases |s|
  {
    if s != [] {
      var init := s[..|s| - 1];
      DedupIsSubsequence(init);
      var r := Dedup(s);
      if s[|s| - 1] !in Dedup(init) {
        assert r[..|r| - 1] == Dedup(init);
      }
      SubsequenceBounds(r, s);
    }
  }

  /** First-occurrence order: each kept element sits at the first position its
      value has in the input, and kept elements appear in the order of those
      first positions. */
  lemma {:induction false} DedupFirstOccurrenceOrder<T>(s: seq<T>)
    ensures forall k :: 0 <= k < |Dedup(s)| ==> Dedup(s)[k] in s
    ensures forall k, l :: 0 <= k < l < |Dedup(s)| ==>
      FirstIndex(s, Dedup(s)[k]) < FirstIndex(s, Dedup(s)[l])
    decreases |s|
  {
    if s != [] {
      var init := s[..|s| - 1];
      var x := s[|s| - 1];
      var p := Dedup(init);
      var r := Dedup(s);
      assert s == init + [x];
      DedupFirstOccurrenceOrder(init);
      forall y | y in init ensures FirstIndex(s, y) == FirstIndex(init, y) {
        FirstIndexAppend(init, x, y);
      }
      if x !in p {
        assert x !in init;
        assert FirstIndex(s, x) == |s| - 1;
        forall k, l | 0 <= k < l < |r| ensures FirstIndex(s, r[k]) < FirstIndex(s, r[l]) {
          assert r[k] == p[k] && r[k] in init;
          if l < |p| {
            assert r[l] == p[l];
          }
        }
      }
    }
  }

  /** A list without duplicates is left as it is. */
  lemma {:induction false} DedupOfDistinct<T>(s: seq<T>)
    requires NoDups(s)
    ensures Dedup(s) == s
    decreases |s|
  {
    if s != [] {
      var init := s[..|s| - 1];
      DedupOfDistinct(init);
      assert s == init + [s[|s| - 1]];
    }
  }

  /** Removing duplicates twice is the same as removing them once. */
  lemma DedupIdempotent<T>(s: seq<T>)
    ensures Dedup(Dedup(s)) == Dedup(s)
  {
    DedupOfDistinct(Dedup(s));
  }

  // ---------------------------------------------------------------------------
  // remove_illegal

  /** The paths `remove_illegal(d, illegal)` keeps: those no token is a
      substring of, in their order, repeats included. */
  function Survivors(d: seq<string>, illegal: seq<string>): (r: seq<string>)
    ensures forall p :: p in r <==> p in d && !Excludes(illegal, p)
    ensures forall p :: multiset(r)[p] == if Excludes(illegal, p) then 0 else multiset(d)[p]
    ensures IsSubsequence(r, d)
    decreases |d|
  {
    if d == [] then []
    else
      var init := d[..|d| - 1];
      var p := d[|d| - 1];
      var r := Survivors(init, illegal);
      assert d == init + [p];
      if Excludes(illegal, p) then r
      else
        assert (r + [p])[..|r|] == r;
        r + [p]
  }

  /** With no token matching any path, filtering changes nothing. */
  lemma {:induction false} SurvivorsWhenNothingMatches(d: seq<string>, illegal: seq<string>)
    requires forall p :: p in d ==> !Excludes(illegal, p)
    ensures Survivors(d, illegal) == d
    decreases |d|
  {
    if d != [] {
      var init := d[..|d| - 1];
      assert d == init + [d[|d| - 1]];
      SurvivorsWhenNothingMatches(init, illegal);
    }
  }

  /** The empty token removes every path. */
  lemma SurvivorsOfEmptyToken(d: seq<string>, illegal: seq<string>)
    requires "" in illegal
    ensures Survivors(d, illegal) == []
  {
    var r := Survivors(d, illegal);
    if r != [] {
      EmptyTokenExcludesAll(illegal, r[0]);
      assert false;
    }
  }

  /** `filter(keep, d)` and `Survivors` agree when `keep` is the negated
      exclusion test on every path of `d`. */
  lemma {:induction false} FilterIsSurvivors(d: seq<string>, keep: string -> bool, illegal: seq<string>)
    requires forall i :: 0 <= i < |d| ==> keep(d[i]) == !Excludes(illegal, d[i])
    ensures Filter(d, keep) == Survivors(d, illegal)
    decreases |d|
  {
    if d != [] {
      FilterIsSurvivors(d[..|d| - 1], keep, illegal);
    }
  }

  /** `remove_illegal(d, illegal)`: collects into `bad` every path some token
      is a substring of, then keeps the paths not in `bad`. */
  method RemoveIllegal(d: seq<string>, illegal: seq<string>) returns (r: seq<string>)
    ensures r == Survivors(d, illegal)
  {
    var bad: seq<string> := [];
    for i := 0 to |d|
      invariant forall p :: p in bad <==> p in d[..i] && Excludes(illegal, p)
    {
      for j := 0 to |illegal|
        invariant forall p :: p in bad <==>
          (p in d[..i] && Excludes(illegal, p))
          || (p == d[i] && exists k :: 0 <= k < j && IsSubstring(illegal[k], d[i]))
      {
        if IsSubstring(illegal[j], d[i]) {
          bad := bad + [d[i]];
        }
      }
      assert d[..i + 1] == d[..i] + [d[i]];
    }
    assert d[..|d|] == d;
    var keep := x => x !in bad;
    r := Filter(d, keep);
    FilterIsSurvivors(d, keep, illegal);
  }

  // ---------------------------------------------------------------------------
  // locate_fileobjects

  /** One step of the directory walk: a directory and the names of the files
      directly inside it. */
  datatype WalkEntry = WalkEntry(root: string, files: seq<string>)

  /** The full paths of `files` under `root`; `fullPath(root, file)` stands for
      `os.path.abspath(os.path.join(root, file))`. */
  function FullPaths(root: string, files: seq<string>, fullPath: (string, string) -> string): (r: seq<string>)
    ensures |r| == |files|
    ensures forall j :: 0 <= j < |files| ==> r[j] == fullPath(root, files[j])
    decreases |files|
  {
    if files == [] then []
    else FullPaths(root, files[..|files| - 1], fullPath) + [fullPath(root, files[|files| - 1])]
  }

  /** The files one walk entry contributes: none when its root contains the
      substring ".git". */
  function Contribution(e: WalkEntry, fullPath: (string, string) -> string): (r: seq<string>)
    ensures |r| == if IsSubstring(".git", e.root) then 0 else |e.files|
    ensures forall j :: 0 <= j < |r| ==> r[j] == fullPath(e.root, e.files[j])
  {
    if IsSubstring(".git", e.root) then [] else FullPaths(e.root, e.files, fullPath)
  }

  /** Every path the walk discovers, in walk order, repeats included. */
  function Collected(walk: seq<WalkEntry>, fullPath: (string, string) -> string): (r: seq<string>)
    ensures (forall i :: 0 <= i < |walk| ==> IsSubstring(".git", walk[i].root)) ==> r == []
    decreases |walk|
  {
    if walk == [] then []
    else Collected(walk[..|walk| - 1], fullPath) + Contribution(walk[|walk| - 1], fullPath)
  }

  /** The walk entry finds `p`: its root does not contain ".git" and one of its
      files resolves to `p`. */
  ghost predicate Discovers(e: WalkEntry, fullPath: (string, string) -> string, p: string) {
    !IsSubstring(".git", e.root) && exists f :: f in e.files && fullPath(e.root, f) == p
  }

  /** The inner loop of `locate_fileobjects`: appends the full path of every
      file of one walk entry to `found`, in the order of `files`. */
  method AppendFullPaths(found: seq<string>, root: string, files: seq<string>, fullPath: (string, string) -> string)
    returns (r: seq<string>)
    ensures r == found + FullPaths(root, files, fullPath)
  {
    r := found;
    for j := 0 to |files|
      invariant r == found + FullPaths(root, files[..j], fullPath)
    {
      assert files[..j + 1][..j] == files[..j];
      r := r + [fullPath(root, files[j])];
    }
    assert files[..|files|] == files;
  }

  /** `locate_fileobjects(origin)` with the file system as parameters:
      `originIsFile` is `os.path.isfile(origin)` and `walk` what
      `os.walk(origin)` yields. */
  method LocateFileObjects(
    origin: string, originIsFile: bool, walk: seq<WalkEntry>, fullPath: (string, string) -> string)
    returns (fobjects: seq<string>)
    ensures originIsFile ==> fobjects == [origin]
    ensures !originIsFile ==> fobjects == Dedup(Collected(walk, fullPath))
  {
    if originIsFile {
      return [origin];
    }
    var found: seq<string> := [];
    for i := 0 to |walk|
      invariant found == Collected(walk[..i], fullPath)
    {
      var root, files := walk[i].root, walk[i].files;
      var kept := if IsSubstring(".git", root) then [] else files;
      assert walk[..i + 1][..i] == walk[..i];
      found := AppendFullPaths(found, root, kept, fullPath);
    }
    assert walk[..|walk|] == walk;
    fobjects := RemoveDuplicates(found);
  }

  /** One walk entry contributes exactly the paths it discovers. */
  lemma ContributionMembers(e: WalkEntry, fullPath: (string, string) -> string, p: string)
    ensures p in Contribution(e, fullPath) <==> Discovers(e, fullPath, p)
  {
    if p in Contribution(e, fullPath) {
      var j :| 0 <= j < |e.files| && FullPaths(e.root, e.files, fullPath)[j] == p;
      assert e.files[j] in e.files;
    }
    if Discovers(e, fullPath, p) {
      var f :| f in e.files && fullPath(e.root, f) == p;
      var j :| 0 <= j < |e.files| && e.files[j] == f;
      assert FullPaths(e.root, e.files, fullPath)[j] == p;
    }
  }

  /** A path is collected exactly when some walk entry discovers it. */
  lemma {:induction false} CollectedMembers(walk: seq<WalkEntry>, fullPath: (string, string) -> string, p: string)
    ensures p in Collected(walk, fullPath) <==> exists i :: 0 <= i < |walk| && Discovers(walk[i], fullPath, p)
    decreases |walk|
  {
    if walk != [] {
      var init := walk[..|walk| - 1];
      var e := walk[|walk| - 1];
      CollectedMembers(init, fullPath, p);
      ContributionMembers(e, fullPath, p);
      assert forall i :: 0 <= i < |init| ==> init[i] == walk[i];
    }
  }

  /** For a directory origin the result holds no path twice, and holds exactly
      the paths some walk entry outside ".git" directories discovers. */
  lemma LocatedPaths(walk: seq<WalkEntry>, fullPath: (string, string) -> string, p: string)
    ensures NoDups(Dedup(Collected(walk, fullPath)))
    ensures p in Dedup(Collected(walk, fullPath)) <==>
      exists i :: 0 <= i < |walk| && Discovers(walk[i], fullPath, p)
  {
    CollectedMembers(walk, fullPath, p);
  }

  /** The ".git" test is a substring test on the whole root, so it also skips
      roots such as ".github" or ".gitlab-ci". */
  lemma GitSubstringSkipsGithub(e: WalkEntry, fullPath: (string, string) -> string)
    requires IsSubstring(".github", e.root)
    ensures Contribution(e, fullPath) == []
  {
    assert OccursAt(".git", ".github", 0);
    SubstringTransitive(".git", ".github", e.root);
  }

  // ---------------------------------------------------------------------------
  // print_header / print_footer

  /** The four-space indent `'\t'.expandtabs(4)` that starts every report
      line. */
  const Indent: string := "    "
  const HeaderLeft: string := "object"
  const HeaderRight: string := "line count"

  /** The rule line above and below the header and above the footer: the
      indent, then `total_width` dashes (none when it is not positive). */
  function Rule(totalWidth: int): (line: string)
    ensures |line| == |Indent| + (if totalWidth > 0 then totalWidth else 0)
    ensures line[..|Indent|] == Indent
    ensures forall k :: |Indent| <= k < |line| ==> line[k] == '-'
  {
    var line := Indent + Repeat("-", totalWidth);
    assert line[..|Indent|] == Indent;
    line
  }

  /** `print_header(w)` with `COUNT_COLUMN_WIDTH` as a parameter and colour
      codes left out: rule, column titles, rule. The gap between the titles is
      `total_width - 16` spaces, none when that is not positive, so the title
      row is as wide as the rules whenever `total_width >= 16`. */
  function Header(w: int, countColumnWidth: int): (lines: seq<string>)
    ensures |lines| == 3 && lines[0] == lines[2] == Rule(w + countColumnWidth)
    ensures var totalWidth := w + countColumnWidth;
      |lines[1]| == |Indent| + (if totalWidth > 16 then totalWidth else 16)
    ensures w + countColumnWidth >= 16 ==> |lines[1]| == |lines[0]|
    ensures lines[1][..|Indent| + |HeaderLeft|] == Indent + HeaderLeft
    ensures var totalWidth := w + countColumnWidth;
      lines[1] == Indent + HeaderLeft + Spaces(if totalWidth > 16 then totalWidth - 16 else 0) + HeaderRight
  {
    var totalWidth := w + countColumnWidth;
    var gap := ExpandTab(totalWidth - |HeaderLeft| - |HeaderRight|);
    assert gap == Spaces(if totalWidth > 16 then totalWidth - 16 else 0);
    var titles := Indent + HeaderLeft + gap + HeaderRight;
    assert titles[..|Indent| + |HeaderLeft|] == Indent + HeaderLeft;
    [Rule(totalWidth), titles, Rule(totalWidth)]
  }

  /** The label of the footer line: `Total (<object_count> objects):`. */
  function FooterLabel(objectCount: nat): string {
    "Total (" + NatToString(objectCount) + " objects):"
  }

  /** `print_footer(total, object_count, w)` with `COUNT_COLUMN_WIDTH` as a
      parameter: a rule, then the label, a gap of
      `total_width - len(msg) - len(str(total)) - 1` spaces (none when that is
      not positive) and the total. When the gap is positive the total ends one
      column before the right edge of the rule. Thousands separators and colour
      codes of the printed numbers are left out. */
  function Footer(total: nat, objectCount: nat, w: int, countColumnWidth: int): (lines: seq<string>)
    ensures |lines| == 2 && lines[0] == Rule(w + countColumnWidth)
    ensures var gap := w + countColumnWidth - |FooterLabel(objectCount)| - |NatToString(total)| - 1;
      |lines[1]| == |Indent| + |FooterLabel(objectCount)| + (if gap > 0 then gap else 0) + |NatToString(total)|
    ensures w + countColumnWidth > |FooterLabel(objectCount)| + |NatToString(total)| + 1 ==>
      |lines[1]| == |lines[0]| - 1
    ensures lines[1][|lines[1]| - |NatToString(total)|..] == NatToString(total)
    ensures var gap := w + countColumnWidth - |FooterLabel(objectCount)| - |NatToString(total)| - 1;
      lines[1] == Indent + FooterLabel(objectCount) + Spaces(if gap > 0 then gap else 0) + NatToString(total)
  {
    var totalWidth := w + countColumnWidth;
    var msg := FooterLabel(objectCount);
    var gap := ExpandTab(totalWidth - |msg| - |NatToString(total)| - 1);
    var n := totalWidth - |msg| - |NatToString(total)| - 1;
    assert gap == Spaces(if n > 0 then n else 0);
    var row := Indent + msg + gap + NatToString(total);
    assert row[|row| - |NatToString(total)|..] == NatToString(total);
    [Rule(totalWidth), row]
  }
}
