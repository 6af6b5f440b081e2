/** Two algorithms of the design checker (scripts/design-check.py): the line ranges of a document's
    numbered sections, and which files changed in commits that left their document alone.

    Headings arrive as matched (line, level, section) triples and the git log as its lines.
 */
module DesignCheck {
  import opened Text

  // ---- section ranges ----

  datatype Head = Head(line: nat, level: nat, section: string)

  /** Headings as a scan of a document of `total` lines finds them. */
  ghost predicate Scanned(heads: seq<Head>, total: nat) {
    && (forall i :: 0 <= i < |heads| ==> 1 <= heads[i].line <= total)
    && (forall i, j :: 0 <= i < j < |heads| ==> heads[i].line < heads[j].line)
  }

  /** The first heading from `j` on at `level` or above. */
  function NextAtLevel(heads: seq<Head>, level: nat, j: nat): (at: nat)
    requires j <= |heads|
    ensures j <= at <= |heads|
    ensures forall k :: j <= k < at ==> heads[k].level > level
    ensures at < |heads| ==> heads[at].level <= level
    decreases |heads| - j
  {
    if j == |heads| || heads[j].level <= level then j else NextAtLevel(heads, level, j + 1)
  }

  /** The last line of heading `i`'s section. */
  function End(heads: seq<Head>, total: nat, i: nat): int
    requires i < |heads|
  {
    var next := NextAtLevel(heads, heads[i].level, i + 1);
    if next < |heads| then heads[next].line - 1 else total
  }

  predicate InRange(heads: seq<Head>, total: nat, i: nat, line: nat)
    requires i < |heads|
  {
    heads[i].line <= line <= End(heads, total, i)
  }

  /** What a section is: a line belongs to a heading exactly when it is at or below it and no
      heading of the same or a higher level stands in between. */
  lemma InRangeIffNothingIntervenes(heads: seq<Head>, total: nat, i: nat, line: nat)
    requires Scanned(heads, total) && i < |heads|
    ensures InRange(heads, total, i, line) <==>
            && heads[i].line <= line <= total
            && forall k :: i < k < |heads| && heads[k].line <= line ==> heads[k].level > heads[i].level
  {
    var next := NextAtLevel(heads, heads[i].level, i + 1);
    assert forall k :: next < k < |heads| ==> heads[next].line < heads[k].line;
    assert forall k :: i < k < next ==> heads[k].level > heads[i].level;
  }

  /** Laminar: of two sections, either the later starts after the earlier ends, or it lies inside
      it and is deeper. */
  lemma SectionsAreLaminar(heads: seq<Head>, total: nat, i: nat, j: nat)
    requires Scanned(heads, total) && i < j < |heads|
    ensures End(heads, total, i) < heads[j].line || (End(heads, total, j) <= End(heads, total, i) && heads[j].level > heads[i].level)
  {
    var ours := NextAtLevel(heads, heads[i].level, i + 1);
    if j < ours {
      var theirs := NextAtLevel(heads, heads[j].level, j + 1);
      if ours < |heads| {
        assert theirs <= ours;
        assert theirs < ours ==> heads[theirs].line < heads[ours].line;
      }
    } else {
      assert ours < j ==> heads[ours].line < heads[j].line;
    }
  }

  /** The last of the first `k` headings that carries the section number: the one the dictionary
      keeps. */
  function LastWith(heads: seq<Head>, k: nat, section: string): (last: Option<nat>)
    requires k <= |heads|
    ensures last.Some? ==> last.value < k && heads[last.value].section == section
    ensures forall i :: (if last.Some? then last.value else -1) < i < k ==> heads[i].section != section
  {
    if k == 0 then None else if heads[k - 1].section == section then Some(k - 1) else LastWith(heads, k - 1, section)
  }

  type Sections = map<string, (nat, int)>

  ghost predicate Maps(sections: Sections, heads: seq<Head>, total: nat, k: nat)
    requires k <= |heads|
  {
    forall section :: MapsOne(sections, heads, total, k, section)
  }

  ghost predicate MapsOne(sections: Sections, heads: seq<Head>, total: nat, k: nat, section: string)
    requires k <= |heads|
  {
    var last := LastWith(heads, k, section);
    && (section in sections <==> last.Some?)
    && (last.Some? ==> sections[section] == (heads[last.value].line, End(heads, total, last.value)))
  }

  /** Where a heading's section ends: before the next heading that is not deeper. */
  method LookAhead(heads: seq<Head>, total: nat, i: nat) returns (end: int)
    requires i < |heads|
    ensures end == End(heads, total, i)
  {
    end := total;
    var j := i + 1;
    while j < |heads|
      invariant i + 1 <= j <= |heads| && end == total
      invariant NextAtLevel(heads, heads[i].level, i + 1) == NextAtLevel(heads, heads[i].level, j)
    {
      if heads[j].level <= heads[i].level { return heads[j].line - 1; }
      j := j + 1;
    }
  }

  /** The second half of `rfc_sections`: for each heading, look ahead for where its section ends. */
  method RfcSections(heads: seq<Head>, total: nat) returns (sections: Sections)
    ensures Maps(sections, heads, total, |heads|)
  {
    sections := map[];
    for i := 0 to |heads|
      invariant Maps(sections, heads, total, i)
    {
      var end := LookAhead(heads, total, i);
      ghost var before, next := sections, i + 1;
      sections := sections[heads[i].section := (heads[i].line, end)];
      forall section ensures MapsOne(sections, heads, total, next, section) {
        assert MapsOne(before, heads, total, i, section);
      }
    }
  }

  /** The filter in `diff_report`: whether a citation of `section` is reported for a changed
      document. */
  predicate KeepsCitation(sections: Sections, section: Option<string>, changed: set<nat>) {
    !(section.Some? && section.value in sections && changed != {}) ||
    exists line :: line in changed && sections[section.value].0 <= line <= sections[section.value].1
  }

  /** A citation that names a known section of a document with known changes is reported exactly
      when some changed line lies in that section; any other citation of the document always is. */
  lemma CitationKeptIff(heads: seq<Head>, total: nat, sections: Sections, section: Option<string>, changed: set<nat>)
    requires Scanned(heads, total) && Maps(sections, heads, total, |heads|)
    ensures var known := section.Some? && changed != {} && LastWith(heads, |heads|, section.value).Some?;
            && (!known ==> KeepsCitation(sections, section, changed))
            && (known ==>
                  var i := LastWith(heads, |heads|, section.value).value;
                  (KeepsCitation(sections, section, changed) <==> exists line :: line in changed && InRange(heads, total, i, line)))
  {
    if section.Some? {
      assert MapsOne(sections, heads, total, |heads|, section.value);
      var last := LastWith(heads, |heads|, section.value);
      if last.Some? {
        assert forall line: nat :: InRange(heads, total, last.value, line) <==>
                 sections[section.value].0 <= line <= sections[section.value].1;
      }
    }
  }

  // ---- commits that left the document alone ----

  datatype Block = Block(commit: string, files: seq<string>)

  predicate IsShortSha(s: string) {
    7 <= |s| <= 12 && forall i :: 0 <= i < |s| ==> '0' <= s[i] <= '9' || 'a' <= s[i] <= 'f'
  }

  /** Seven to twelve lower-case hex digits, and nothing else, count as a sha. */
  lemma ShortShaIff(s: string)
    ensures IsShortSha(s) <==> |s| in {7, 8, 9, 10, 11, 12} && forall i :: 0 <= i < |s| ==> s[i] in "0123456789abcdef"
  {
    assert forall c: char :: '0' <= c <= '9' || 'a' <= c <= 'f' <==> c in "0123456789abcdef";
  }

  /** What a scan of the log holds: the commits it has closed, and the one it is in. */
  datatype Scan = Scan(closed: seq<Block>, commit: Option<string>, files: seq<string>)

  function Closed(scan: Scan): seq<Block> {
    if scan.commit.Some? then scan.closed + [Block(scan.commit.value, scan.files)] else scan.closed
  }

  /** What the scan makes of one line, stripped. */
  datatype Line = Empty | Sha(sha: string) | Name(name: string)

  function Classify(line: string): Line {
    var text := Trim(line);
    if text == "" then Empty else if IsShortSha(text) then Sha(text) else Name(text)
  }

  function Classified(lines: seq<string>): seq<Line> {
    seq(|lines|, i requires 0 <= i < |lines| => Classify(lines[i]))
  }

  function ScanLine(scan: Scan, line: Line): Scan {
    match line
    case Empty => scan
    case Sha(sha) => Scan(Closed(scan), Some(sha), [])
    case Name(name) => scan.(files := scan.files + [name])
  }

  /** The scan after the first `k` lines. */
  function ScanLines(lines: seq<Line>, k: nat): Scan
    requires k <= |lines|
  {
    if k == 0 then Scan([], None, []) else ScanLine(ScanLines(lines, k - 1), lines[k - 1])
  }

  /** The commits a log lists. */
  function CommitsOf(lines: seq<string>): seq<Block> {
    Closed(ScanLines(Classified(lines), |lines|))
  }

  function Hits(files: seq<string>, f: string, commit: string): seq<string> {
    if files == [] then []
    else Hits(files[..|files| - 1], f, commit) + if files[|files| - 1] == f then [commit] else []
  }

  /** The commits that list `f` and not the document, in log order. */
  function Suspected(blocks: seq<Block>, doc: string, f: string): seq<string> {
    if blocks == [] then []
    else
      var last := blocks[|blocks| - 1];
      Suspected(blocks[..|blocks| - 1], doc, f) + if doc in last.files then [] else Hits(last.files, f, last.commit)
  }

  type Suspects = map<string, seq<string>>

  function Of(suspects: Suspects, f: string): seq<string> {
    if f in suspects then suspects[f] else []
  }

  ghost predicate NoneEmpty(suspects: Suspects) {
    forall f :: f in suspects ==> suspects[f] != []
  }

  /** `flush`: file the commit under every watched file it lists, unless it lists the document. */
  method Flush(suspects: Suspects, commit: Option<string>, files: seq<string>, doc: string, codePaths: seq<string>) returns (after: Suspects)
    requires NoneEmpty(suspects)
    ensures NoneEmpty(after)
    ensures forall f :: Of(after, f) ==
              Of(suspects, f) + if commit.Some? && doc !in files && f in codePaths then Hits(files, f, commit.value) else []
  {
    after := suspects;
    if commit.None? || doc in files { return; }
    for i := 0 to |files|
      invariant NoneEmpty(after)
      invariant forall f :: Filed(suspects, after, files[..i], f, codePaths, commit.value)
    {
      ghost var before, listed := after, files[..i + 1];
      var file := files[i];
      after := FileUnder(after, file, commit.value, codePaths);
      forall f ensures Filed(suspects, after, listed, f, codePaths, commit.value) {
        assert Filed(suspects, before, files[..i], f, codePaths, commit.value);
        FiledOne(suspects, before, files, i, f, codePaths, commit.value);
      }
    }
    assert files[..|files|] == files;
    forall f ensures Of(after, f) == Of(suspects, f) + if f in codePaths then Hits(files, f, commit.value) else [] {
      assert Filed(suspects, after, files[..|files|], f, codePaths, commit.value);
    }
  }

  ghost predicate Filed(suspects: Suspects, after: Suspects, files: seq<string>, f: string, codePaths: seq<string>, commit: string) {
    Of(after, f) == Of(suspects, f) + if f in codePaths then Hits(files, f, commit) else []
  }

  function FileUnder(suspects: Suspects, file: string, commit: string, codePaths: seq<string>): Suspects {
    if file in codePaths then suspects[file := Of(suspects, file) + [commit]] else suspects
  }

  lemma FiledOne(suspects: Suspects, before: Suspects, files: seq<string>, i: nat, f: string, codePaths: seq<string>, commit: string)
    requires i < |files| && Filed(suspects, before, files[..i], f, codePaths, commit)
    ensures Filed(suspects, FileUnder(before, files[i], commit, codePaths), files[..i + 1], f, codePaths, commit)
  {
    assert files[..i + 1][..i] == files[..i];
    var hits := Hits(files[..i], f, commit);
    assert Of(suspects, f) + (hits + [commit]) == Of(suspects, f) + hits + [commit];
  }

  /** `changed_without_doc`: each watched file with the commits, in log order, that list it and not
      the document. */
  method ChangedWithoutDoc(sha: string, doc: string, codePaths: seq<string>, lines: seq<string>) returns (suspects: Suspects)
    ensures sha == "" || codePaths == [] ==> suspects == map[]
    ensures NoneEmpty(suspects)
    ensures sha != "" && codePaths != [] ==>
              forall f :: Of(suspects, f) == if f in codePaths then Suspected(CommitsOf(lines), doc, f) else []
  {
    suspects := map[];
    if sha == "" || codePaths == [] { return; }
    var commit: Option<string>, files: seq<string> := None, [];
    ghost var scan := Scan([], None, []);
    for i := 0 to |lines|
      invariant scan == ScanLines(Classified(lines), i) && scan.commit == commit && scan.files == files
      invariant NoneEmpty(suspects)
      invariant forall f :: Of(suspects, f) == if f in codePaths then Suspected(scan.closed, doc, f) else []
    {
      ghost var before := scan;
      scan := ScanLine(scan, Classify(lines[i]));
      var text := Trim(lines[i]);
      if text == "" { continue; }
      if IsShortSha(text) {
        suspects := Flush(suspects, commit, files, doc, codePaths);
        ClosedSuspects(before, doc);
        commit, files := Some(text), [];
      } else {
        files := files + [text];
      }
    }
    suspects := Flush(suspects, commit, files, doc, codePaths);
    ClosedSuspects(scan, doc);
  }

  lemma ClosedSuspects(scan: Scan, doc: string)
    ensures forall f :: Suspected(Closed(scan), doc, f) ==
              Suspected(scan.closed, doc, f) +
              if scan.commit.Some? && doc !in scan.files then Hits(scan.files, f, scan.commit.value) else []
  {
    assert scan.commit.Some? ==> Closed(scan)[..|scan.closed|] == scan.closed;
  }

  // ---- on the logs git prints ----

  /** A short sha, a blank line, the files, for each commit. */
  function Printed(blocks: seq<Block>): seq<string> {
    if blocks == [] then []
    else
      var last := blocks[|blocks| - 1];
      Printed(blocks[..|blocks| - 1]) + [last.commit, ""] + last.files
  }

  /** File names are printed bare and none looks like a short sha; no commit lists one twice. */
  ghost predicate WellFormed(block: Block) {
    && IsShortSha(block.commit) && Trimmed(block.commit)
    && (forall i :: 0 <= i < |block.files| ==> IsFileName(block.files[i]))
    && (forall i, j :: 0 <= i < j < |block.files| ==> block.files[i] != block.files[j])
  }

  ghost predicate IsFileName(name: string) { name != "" && Trimmed(name) && !IsShortSha(name) }

  function Names(files: seq<string>): seq<Line> {
    seq(|files|, i requires 0 <= i < |files| => Name(files[i]))
  }

  function LinesOf(blocks: seq<Block>): seq<Line> {
    if blocks == [] then []
    else
      var last := blocks[|blocks| - 1];
      LinesOf(blocks[..|blocks| - 1]) + [Sha(last.commit), Empty] + Names(last.files)
  }

  lemma {:induction false} ScanOfPrefix(lines: seq<Line>, more: seq<Line>, k: nat)
    requires k <= |lines|
    ensures ScanLines(lines + more, k) == ScanLines(lines, k)
  {
    if k > 0 { ScanOfPrefix(lines, more, k - 1); }
  }

  lemma {:induction false} ScanNames(lines: seq<Line>, start: nat, files: seq<string>, m: nat)
    requires m <= |files| && start + |files| <= |lines|
    requires forall i :: start <= i < start + |files| ==> lines[i] == Name(files[i - start])
    ensures ScanLines(lines, start + m) == ScanLines(lines, start).(files := ScanLines(lines, start).files + files[..m])
  {
    if m > 0 {
      ScanNames(lines, start, files, m - 1);
      assert files[..m] == files[..m - 1] + [files[m - 1]];
    }
  }

  /** One more commit printed, one more commit found. */
  lemma ScanBlock(before: seq<Line>, block: Block)
    ensures var lines := before + [Sha(block.commit), Empty] + Names(block.files);
            Closed(ScanLines(lines, |lines|)) == Closed(ScanLines(before, |before|)) + [block]
  {
    var n, more := |before|, [Sha(block.commit), Empty] + Names(block.files);
    var lines := before + [Sha(block.commit), Empty] + Names(block.files);
    assert lines == before + more;
    ScanOfPrefix(before, more, n);
    assert lines[n] == Sha(block.commit) && lines[n + 1] == Empty;
    assert ScanLines(lines, n + 1) == Scan(Closed(ScanLines(lines, n)), Some(block.commit), []);
    assert ScanLines(lines, n + 2) == ScanLines(lines, n + 1);
    ScanNames(lines, n + 2, block.files, |block.files|);
    assert [] + block.files[..|block.files|] == block.files;
  }

  lemma {:induction false} ScanOfLines(blocks: seq<Block>)
    ensures Closed(ScanLines(LinesOf(blocks), |LinesOf(blocks)|)) == blocks
  {
    if blocks != [] {
      ScanOfLines(blocks[..|blocks| - 1]);
      ScanBlock(LinesOf(blocks[..|blocks| - 1]), blocks[|blocks| - 1]);
    }
  }

  lemma ClassifiedAppends(a: seq<string>, b: seq<string>)
    ensures Classified(a + b) == Classified(a) + Classified(b)
  {}

  lemma ClassifyBlock(block: Block)
    requires WellFormed(block)
    ensures Classified([block.commit, ""] + block.files) == [Sha(block.commit), Empty] + Names(block.files)
  {
    TrimOfTrimmed(block.commit);
    forall i | 0 <= i < |block.files| ensures Classify(block.files[i]) == Name(block.files[i]) {
      assert IsFileName(block.files[i]);
      TrimOfTrimmed(block.files[i]);
    }
    assert Trim("") == "";
  }

  lemma {:induction false} PrintedLines(blocks: seq<Block>)
    requires forall i :: 0 <= i < |blocks| ==> WellFormed(blocks[i])
    ensures Classified(Printed(blocks)) == LinesOf(blocks)
  {
    if blocks != [] {
      var front, last := blocks[..|blocks| - 1], blocks[|blocks| - 1];
      PrintedLines(front);
      ClassifyBlock(last);
      var printed, lines := [last.commit, ""] + last.files, [Sha(last.commit), Empty] + Names(last.files);
      assert Printed(blocks) == Printed(front) + printed;
      assert LinesOf(blocks) == LinesOf(front) + lines;
      ClassifiedAppends(Printed(front), printed);
    }
  }

  /** Reading a printed log finds its commits. */
  lemma CommitsOfPrinted(blocks: seq<Block>)
    requires forall i :: 0 <= i < |blocks| ==> WellFormed(blocks[i])
    ensures CommitsOf(Printed(blocks)) == blocks
  {
    PrintedLines(blocks);
    ScanOfLines(blocks);
    assert |Classified(Printed(blocks))| == |Printed(blocks)|;
  }

  /** A commit lists a file in its block at most once. */
  lemma {:induction false} HitsOnce(files: seq<string>, f: string, commit: string)
    requires forall i, j :: 0 <= i < j < |files| ==> files[i] != files[j]
    ensures Hits(files, f, commit) == if f in files then [commit] else []
  {
    if files != [] { HitsOnce(files[..|files| - 1], f, commit); }
  }

  /** Exactly the commits that list the file and not the document. */
  function CommitsTouching(blocks: seq<Block>, doc: string, f: string): seq<string> {
    if blocks == [] then []
    else
      var last := blocks[|blocks| - 1];
      CommitsTouching(blocks[..|blocks| - 1], doc, f) + if f in last.files && doc !in last.files then [last.commit] else []
  }

  lemma {:induction false} SuspectedIsTouching(blocks: seq<Block>, doc: string, f: string)
    requires forall i :: 0 <= i < |blocks| ==> WellFormed(blocks[i])
    ensures Suspected(blocks, doc, f) == CommitsTouching(blocks, doc, f)
  {
    if blocks != [] {
      SuspectedIsTouching(blocks[..|blocks| - 1], doc, f);
      var last := blocks[|blocks| - 1];
      HitsOnce(last.files, f, last.commit);
    }
  }

  /** On a printed log, what the scan suspects of a file is exactly the commits that list the file
      and not the document, in log order. */
  lemma PrintedLogIsExact(blocks: seq<Block>, doc: string, f: string)
    requires forall i :: 0 <= i < |blocks| ==> WellFormed(blocks[i])
    ensures Suspected(CommitsOf(Printed(blocks)), doc, f) == CommitsTouching(blocks, doc, f)
  {
    CommitsOfPrinted(blocks);
    SuspectedIsTouching(blocks, doc, f);
  }
}
