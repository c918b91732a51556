/** The managed section of `~/.ssh/config`: a marker-delimited block inserted or replaced in place. */
module SshConfig {
  import opened Wrappers
  import opened Sequences

  const TITLE: string := "devcroft managed block \U{2014} do not edit "
  const BEGIN_MARKER: string := "# >>> " + TITLE + ">>>"
  const END_MARKER: string := "# <<< " + TITLE + "<<<"

  datatype Markers = Markers(begin: string, end: string)

  const MARKERS := Markers(BEGIN_MARKER, END_MARKER)

  // ----- First occurrences -----

  predicate OccursAt(text: string, pattern: string, i: nat) {
    i + |pattern| <= |text| && text[i..i + |pattern|] == pattern
  }

  predicate Contains(text: string, pattern: string) {
    exists i: nat :: i <= |text| && OccursAt(text, pattern, i)
  }

  /** The first place where `pattern` occurs. */
  function Find(text: string, pattern: string): (r: Option<nat>)
    ensures r.Some? ==> r.value + |pattern| <= |text|
  {
    FindFrom(text, pattern, 0)
  }

  function FindFrom(text: string, pattern: string, from: nat): (r: Option<nat>)
    requires from <= |text|
    ensures r.Some? ==> r.value + |pattern| <= |text|
    decreases |text| - from
  {
    if OccursAt(text, pattern, from) then Some(from)
    else if from == |text| then None
    else FindFrom(text, pattern, from + 1)
  }

  lemma {:induction false} FindFromIsFirst(text: string, pattern: string, from: nat)
    requires from <= |text|
    ensures var r := FindFrom(text, pattern, from);
            && (r.None? ==> forall i: nat :: from <= i ==> !OccursAt(text, pattern, i))
            && (r.Some? ==> from <= r.value && OccursAt(text, pattern, r.value))
            && (r.Some? ==> forall i: nat :: from <= i < r.value ==> !OccursAt(text, pattern, i))
    decreases |text| - from
  {
    if !OccursAt(text, pattern, from) && from < |text| {
      FindFromIsFirst(text, pattern, from + 1);
    }
  }

  /** What is found is an occurrence with none before it, and nothing is found only where there is none. */
  lemma FindIsFirst(text: string, pattern: string)
    ensures Find(text, pattern).None? ==> forall i: nat :: !OccursAt(text, pattern, i)
    ensures Find(text, pattern).Some? ==> OccursAt(text, pattern, Find(text, pattern).value)
    ensures Find(text, pattern).Some? ==> forall i: nat :: i < Find(text, pattern).value ==> !OccursAt(text, pattern, i)
  {
    FindFromIsFirst(text, pattern, 0);
  }

  lemma FoundIfContained(text: string, pattern: string)
    ensures Find(text, pattern).Some? <==> Contains(text, pattern)
  {
    FindIsFirst(text, pattern);
  }

  // ----- The block and the rewritten file -----

  const BLOCK_HEAD: string := "Host *.devcroft\n" + "  ProxyCommand devcroft proxy %n\n" + "  IdentityFile "
  const BLOCK_TAIL: string := "\n" + "  StrictHostKeyChecking no\n" + "  UserKnownHostsFile /dev/null\n"

  /** What is written around an identity. */
  datatype Template = Template(head: string, tail: string)

  const TEMPLATE := Template(BLOCK_HEAD, BLOCK_TAIL)

  function Render(t: Template, identity: string): string {
    t.head + identity + t.tail
  }

  function Marked(m: Markers, body: string): string {
    m.begin + "\n" + body + m.end + "\n"
  }

  function Block(identity: string): string {
    Marked(MARKERS, Render(TEMPLATE, identity))
  }

  function StripNewline(text: string): string {
    if text != "" && text[0] == '\n' then text[1..] else text
  }

  /** The existing text with the newlines that go between it and an appended block. */
  function Separated(text: string): string {
    if text == "" then "" else if text[|text| - 1] == '\n' then text + "\n" else text + "\n\n"
  }

  /** The file with `block` put in place of its managed section, or at its end. */
  function WithBlock(m: Markers, existing: string, block: string): string {
    var start, end := Find(existing, m.begin), Find(existing, m.end);
    if start.Some? && end.Some? && start.value < end.value then
      existing[..start.value] + block + StripNewline(existing[end.value + |m.end|..])
    else
      Separated(existing) + block
  }

  function Updated(existing: string, identity: string): string {
    WithBlock(MARKERS, existing, Block(identity))
  }

  /** The file itself; `None` is a file that is absent or cannot be read as text. */
  class ConfigFile {
    var contents: Option<string>

    constructor (initial: Option<string>)
      ensures contents == initial
    {
      contents := initial;
    }

    function Text(): string
      reads this
    {
      if contents.Some? then contents.value else ""
    }

    method WriteManagedSection(identity: string)
      modifies this
      ensures contents == Some(Updated(old(Text()), identity))
    {
      var out := Rewritten(MARKERS, Text(), Block(identity));
      contents := Some(out);
    }
  }

  method Rewritten(m: Markers, existing: string, block: string) returns (out: string)
    ensures out == WithBlock(m, existing, block)
  {
    match (Find(existing, m.begin), Find(existing, m.end)) {
      case (Some(start), Some(end)) =>
        if start < end {
          out := Spliced(existing, start, end + |m.end|, block);
        } else {
          out := Appended(existing, block);
        }
      case (_, _) =>
        out := Appended(existing, block);
    }
  }

  method Spliced(existing: string, start: nat, end: nat, block: string) returns (out: string)
    requires start <= end <= |existing|
    ensures out == existing[..start] + block + StripNewline(existing[end..])
  {
    out := existing[..start];
    out := out + block;
    var rest := existing[end..];
    if rest != "" && rest[0] == '\n' {
      rest := rest[1..];
    }
    out := out + rest;
  }

  method Appended(existing: string, block: string) returns (out: string)
    ensures out == Separated(existing) + block
  {
    out := existing;
    if out != "" && out[|out| - 1] != '\n' {
      out := out + "\n";
    }
    if out != "" {
      out := out + "\n";
    }
    assert out == Separated(existing);
    out := out + block;
  }

  // ----- Markers cannot straddle a seam -----

  /** A marker starts with the only `#` it has, and it stays on one line. */
  predicate MarkerShape(m: string) {
    && m != "" && m[0] == '#'
    && (forall k :: 1 <= k < |m| ==> m[k] != '#')
    && (forall k :: 0 <= k < |m| ==> m[k] != '\n')
  }

  ghost predicate GoodMarkers(m: Markers) {
    MarkerShape(m.begin) && MarkerShape(m.end)
  }

  lemma TitleIsPlain()
    ensures forall k :: 0 <= k < |TITLE| ==> TITLE[k] != '#' && TITLE[k] != '\n'
  {
  }

  lemma AroundTitle(open: string, title: string, close: string)
    requires MarkerShape(open)
    requires forall k :: 0 <= k < |title| ==> title[k] != '#' && title[k] != '\n'
    requires forall k :: 0 <= k < |close| ==> close[k] != '#' && close[k] != '\n'
    ensures MarkerShape(open + title + close)
    ensures (open + title + close)[..|open|] == open
  {
  }

  lemma MarkersAreShaped()
    ensures MarkerShape(BEGIN_MARKER) && MarkerShape(END_MARKER)
    ensures |BEGIN_MARKER| == |END_MARKER| && BEGIN_MARKER != END_MARKER
  {
    TitleIsPlain();
    AroundTitle("# >>> ", TITLE, ">>>");
    AroundTitle("# <<< ", TITLE, "<<<");
    assert BEGIN_MARKER[2] != END_MARKER[2];
  }

  /** No marker can lie across the seam between `x` and `y`. */
  ghost predicate Seam(x: string, y: string) {
    || x == "" || x[|x| - 1] == '\n'
    || y == "" || y[0] == '#' || y[0] == '\n'
    || forall k :: 0 <= k < |x| ==> x[k] != '#'
  }

  lemma SliceBehind(x: string, y: string, i: nat, n: nat)
    requires |x| <= i && i + n <= |x| + |y|
    ensures (x + y)[i..i + n] == y[i - |x|..i - |x| + n]
  {
  }

  lemma OccursInConcat(x: string, y: string, m: string, i: nat)
    requires MarkerShape(m) && Seam(x, y)
    ensures OccursAt(x + y, m, i) <==> OccursAt(x, m, i) || (i >= |x| && OccursAt(y, m, i - |x|))
  {
    var t := x + y;
    if i + |m| <= |x| {
      assert t[i..i + |m|] == x[i..i + |m|];
    } else if i >= |x| {
      if i + |m| <= |t| {
        SliceBehind(x, y, i, |m|);
      }
    } else if i + |m| <= |t| {
      var w := t[i..i + |m|];
      assert w[0] == x[i] && w[|x| - 1 - i] == x[|x| - 1] && w[|x| - i] == y[0];
    }
  }

  lemma FindIs(text: string, m: string, i: nat)
    requires OccursAt(text, m, i) && forall j: nat :: j < i ==> !OccursAt(text, m, j)
    ensures Find(text, m) == Some(i)
  {
    FindIsFirst(text, m);
  }

  /** What occurs in a prefix is still first once more text follows. */
  lemma FindInPrefix(x: string, y: string, m: string)
    requires Find(x, m).Some?
    ensures Find(x + y, m) == Find(x, m)
  {
    FindIsFirst(x, m);
    var i := Find(x, m).value;
    forall j: nat | j <= i ensures OccursAt(x + y, m, j) <==> OccursAt(x, m, j) {
      assert (x + y)[j..j + |m|] == x[j..j + |m|];
    }
    FindIs(x + y, m, i);
  }

  lemma FindInSuffix(x: string, y: string, m: string)
    requires MarkerShape(m) && Seam(x, y) && Find(x, m).None?
    ensures Find(y, m).None? ==> Find(x + y, m).None?
    ensures Find(y, m).Some? ==> Find(x + y, m) == Some(|x| + Find(y, m).value)
  {
    FindIsFirst(x, m);
    FindIsFirst(y, m);
    FindIsFirst(x + y, m);
    if Find(y, m).Some? {
      var k := Find(y, m).value;
      forall j: nat | j <= |x| + k ensures OccursAt(x + y, m, j) <==> j == |x| + k {
        OccursInConcat(x, y, m, j);
      }
      FindIs(x + y, m, |x| + k);
    } else if Find(x + y, m).Some? {
      OccursInConcat(x, y, m, Find(x + y, m).value);
    }
  }

  // ----- Where the markers are after a write -----

  lemma NoHashNoMarker(text: string, m: string)
    requires MarkerShape(m) && forall k :: 0 <= k < |text| ==> text[k] != '#'
    ensures Find(text, m).None?
  {
    FindIsFirst(text, m);
    forall i: nat ensures !OccursAt(text, m, i) {
      if i + |m| <= |text| {
        assert text[i..i + |m|][0] == text[i];
      }
    }
  }

  lemma MarkerInItself(m: string, y: string)
    ensures Find(m + y, m) == Some(0)
  {
    assert (m + y)[0..0 + |m|] == m;
    FindIs(m + y, m, 0);
  }

  lemma BeginIsNotEnd()
    ensures Find(BEGIN_MARKER, END_MARKER).None?
  {
    MarkersAreShaped();
    FindIsFirst(BEGIN_MARKER, END_MARKER);
    forall i: nat ensures !OccursAt(BEGIN_MARKER, END_MARKER, i) {
      assert BEGIN_MARKER[0..|BEGIN_MARKER|] == BEGIN_MARKER;
    }
  }

  lemma EndIsNotBegin()
    ensures Find(END_MARKER, BEGIN_MARKER).None?
  {
    MarkersAreShaped();
    FindIsFirst(END_MARKER, BEGIN_MARKER);
    forall i: nat ensures !OccursAt(END_MARKER, BEGIN_MARKER, i) {
      assert END_MARKER[0..|END_MARKER|] == END_MARKER;
    }
  }

  lemma MarkersAreGood()
    ensures GoodMarkers(MARKERS) && Find(MARKERS.begin, MARKERS.end).None?
  {
    MarkersAreShaped();
    BeginIsNotEnd();
  }

  predicate HasNoHash(text: string) {
    forall k :: 0 <= k < |text| ==> text[k] != '#'
  }

  /** No `#` in the template, and the text behind the identity begins and ends a line. */
  predicate GoodTemplate(t: Template) {
    && HasNoHash(t.head) && HasNoHash(t.tail)
    && t.tail != "" && t.tail[0] == '\n' && t.tail[|t.tail| - 1] == '\n'
  }

  lemma HeadIsGood()
    ensures HasNoHash(BLOCK_HEAD)
  {
  }

  lemma TailIsGood()
    ensures HasNoHash(BLOCK_TAIL) && BLOCK_TAIL[0] == '\n' && BLOCK_TAIL[|BLOCK_TAIL| - 1] == '\n'
  {
  }

  lemma TemplateIsGood()
    ensures GoodTemplate(TEMPLATE)
  {
    HeadIsGood();
    TailIsGood();
  }

  /** The block from its identity on. */
  function FromIdentity(m: Markers, t: Template, identity: string): string {
    identity + (t.tail + (m.end + "\n"))
  }

  lemma BlockPieces(m: Markers, t: Template, identity: string)
    requires GoodMarkers(m)
    ensures var block := Marked(m, Render(t, identity));
            && block == m.begin + (("\n" + t.head) + FromIdentity(m, t, identity))
            && block[0] == '#' && block[|block| - 1] == '\n'
  {
  }

  lemma EndInIdentity(m: Markers, t: Template, identity: string) returns (k: nat)
    requires GoodMarkers(m) && GoodTemplate(t)
    ensures Find(FromIdentity(m, t, identity), m.end) == Some(k)
    ensures if Contains(identity, m.end) then k + |m.end| <= |identity| else k == |identity| + |t.tail|
  {
    var last := m.end + "\n";
    FoundIfContained(identity, m.end);
    MarkerInItself(m.end, "\n");
    NoHashNoMarker(t.tail, m.end);
    FindInSuffix(t.tail, last, m.end);
    if Contains(identity, m.end) {
      FindInPrefix(identity, t.tail + last, m.end);
      k := Find(identity, m.end).value;
    } else {
      FindInSuffix(identity, t.tail + last, m.end);
      k := |identity| + |t.tail|;
    }
  }

  /** The end marker of a block: behind its begin marker and its head. */
  lemma EndBehindHead(m: Markers, head: string, rest: string, k: nat)
    requires GoodMarkers(m) && Find(m.begin, m.end).None? && Find(rest, m.end) == Some(k)
    requires head != "" && head[0] == '\n' && HasNoHash(head)
    ensures Find(m.begin + (head + rest), m.begin) == Some(0)
    ensures Find(m.begin + (head + rest), m.end) == Some(|m.begin| + |head| + k)
  {
    MarkerInItself(m.begin, head + rest);
    NoHashNoMarker(head, m.end);
    FindInSuffix(head, rest, m.end);
    FindInSuffix(m.begin, head + rest, m.end);
  }

  lemma FindInSeparated(text: string, m: string)
    requires MarkerShape(m)
    ensures Find(Separated(text), m) == Find(text, m)
  {
    if text != "" {
      var y := if text[|text| - 1] == '\n' then "\n" else "\n\n";
      if Find(text, m).Some? {
        FindInPrefix(text, y, m);
      } else {
        NoHashNoMarker(y, m);
        FindInSuffix(text, y, m);
      }
    }
  }

  /** What the proofs below use of a block; `end` is where its end marker is. */
  ghost predicate IsBlock(m: Markers, block: string, end: nat) {
    && block != "" && block[0] == '#' && block[|block| - 1] == '\n'
    && Find(block, m.begin) == Some(0)
    && Find(block, m.end) == Some(end) && 0 < end
    && end + |m.end| < |block|
  }

  /** A block starts with its begin marker; its end marker is the last one unless the identity holds another. */
  lemma MarkedIsBlock(m: Markers, t: Template, identity: string) returns (end: nat)
    requires GoodMarkers(m) && GoodTemplate(t) && Find(m.begin, m.end).None?
    ensures IsBlock(m, Marked(m, Render(t, identity)), end)
    ensures Contains(identity, m.end) <==> end + |m.end| + 1 != |Marked(m, Render(t, identity))|
  {
    BlockPieces(m, t, identity);
    var head, rest := "\n" + t.head, FromIdentity(m, t, identity);
    var k := EndInIdentity(m, t, identity);
    EndBehindHead(m, head, rest, k);
    end := |m.begin| + |head| + k;
  }

  lemma BlockIsBlock(identity: string) returns (end: nat)
    ensures IsBlock(MARKERS, Block(identity), end)
    ensures Contains(identity, MARKERS.end) <==> end + |MARKERS.end| + 1 != |Block(identity)|
  {
    MarkersAreGood();
    TemplateIsGood();
    end := MarkedIsBlock(MARKERS, TEMPLATE, identity);
  }

  /** Text before the block, then the block, then any text. */
  lemma FindBeforeBlock(before: string, block: string, after: string, m: string, k: nat)
    requires MarkerShape(m) && block != "" && block[0] == '#' && Find(block, m) == Some(k)
    ensures Find(before + block + after, m) ==
            if Find(before, m).Some? then Find(before, m) else Some(|before| + k)
  {
    assert before + block + after == before + (block + after);
    FindInPrefix(block, after, m);
    if Find(before, m).Some? {
      FindInPrefix(before, block + after, m);
    } else {
      FindInSuffix(before, block + after, m);
    }
  }

  // ----- Last writer wins -----

  /** Both markers absent, or the first begin marker ahead of the first end marker. */
  predicate WellFormed(m: Markers, text: string) {
    match (Find(text, m.begin), Find(text, m.end))
    case (None, None) => true
    case (Some(start), Some(end)) => start < end
    case (_, _) => false
  }

  predicate HasSection(m: Markers, text: string) {
    WellFormed(m, text) && Find(text, m.begin).Some?
  }

  lemma NoMarkerBefore(text: string, m: string, cut: nat)
    requires cut <= |text| && (Find(text, m).Some? ==> cut <= Find(text, m).value)
    requires m != ""
    ensures Find(text[..cut], m).None?
  {
    FindIsFirst(text, m);
    FindIsFirst(text[..cut], m);
    forall i: nat ensures !OccursAt(text[..cut], m, i) {
      if i + |m| <= cut {
        assert text[..cut][i..i + |m|] == text[i..i + |m|];
        assert !OccursAt(text, m, i);
      }
    }
  }

  lemma AroundSlice(before: string, block: string, after: string, n: nat)
    requires n <= |block|
    ensures (before + block + after)[..|before|] == before
    ensures (before + block + after)[|before| + n..] == block[n..] + after
  {
    Regroup(before, block, after);
    DropFront(before, block + after);
    assert (block + after)[n..] == block[n..] + after;
    assert (before + (block + after))[|before| + n..] == (block + after)[n..];
  }

  lemma SpliceIs(m: Markers, text: string, block: string, start: nat, end: nat)
    requires Find(text, m.begin) == Some(start) && Find(text, m.end) == Some(end) && start < end
    ensures WithBlock(m, text, block) == text[..start] + block + StripNewline(text[end + |m.end|..])
  {
  }

  /** A text around a block, with its markers and its parts named. */
  lemma FoundBlock(m: Markers, before: string, after: string, block: string, end: nat) returns (text: string)
    requires GoodMarkers(m)
    requires IsBlock(m, block, end)
    requires Find(before, m.begin).None? && Find(before, m.end).None?
    ensures text == before + block + after
    ensures Find(text, m.begin) == Some(|before|) && Find(text, m.end) == Some(|before| + end)
    ensures text[..|before|] == before && text[|before| + end + |m.end|..] == block[end + |m.end|..] + after
  {
    text := before + block + after;
    FindBeforeBlock(before, block, after, m.begin, 0);
    FindBeforeBlock(before, block, after, m.end, end);
    AroundSlice(before, block, after, end + |m.end|);
  }

  /** The second of two writes finds the first one's block, between the same texts. */
  lemma RewriteOfBlock(m: Markers, before: string, after: string, block: string, end: nat, next: string)
    requires GoodMarkers(m)
    requires IsBlock(m, block, end)
    requires Find(before, m.begin).None? && Find(before, m.end).None?
    ensures WithBlock(m, before + block + after, next) ==
            before + next + StripNewline(block[end + |m.end|..] + after)
  {
    var text := FoundBlock(m, before, after, block, end);
    SpliceIs(m, text, next, |before|, |before| + end);
  }

  lemma SecondBlockReplacesFirst(m: Markers, before: string, after: string, block: string, end: nat, next: string)
    requires GoodMarkers(m)
    requires IsBlock(m, block, end)
    requires Find(before, m.begin).None? && Find(before, m.end).None?
    ensures WithBlock(m, before + block + after, next) == before + next + after
       <==> end + |m.end| + 1 == |block|
  {
    RewriteOfBlock(m, before, after, block, end, next);
    var left := block[end + |m.end|..];
    if |left| == 1 {
      assert left == "\n";
      assert (left + after)[1..] == after;
    } else {
      assert |StripNewline(left + after)| > |after|;
    }
  }

  /** Where the markers are once a block has been appended. */
  lemma MarkersAfterAppend(m: Markers, text: string, block: string, end: nat)
    requires GoodMarkers(m)
    requires IsBlock(m, block, end)
    ensures Find(Separated(text) + block, m.begin) ==
            if Find(text, m.begin).Some? then Find(text, m.begin) else Some(|Separated(text)|)
    ensures Find(Separated(text) + block, m.end) ==
            if Find(text, m.end).Some? then Find(text, m.end) else Some(|Separated(text)| + end)
    ensures text <= Separated(text) && (text != "" ==> |Separated(text)| > |text|)
  {
    assert Separated(text) + block == Separated(text) + block + "";
    FindInSeparated(text, m.begin);
    FindInSeparated(text, m.end);
    FindBeforeBlock(Separated(text), block, "", m.begin, 0);
    FindBeforeBlock(Separated(text), block, "", m.end, end);
  }

  /** With a stray end marker ahead, or no begin marker at all, every write appends. */
  lemma SecondWriteAppends(m: Markers, text: string, block: string, end: nat, next: string)
    requires GoodMarkers(m)
    requires IsBlock(m, block, end)
    requires !WellFormed(m, text) && Find(text, m.end).Some?
    ensures WithBlock(m, WithBlock(m, text, block), next) != WithBlock(m, text, next)
  {
    MarkersAfterAppend(m, text, block, end);
    assert |WithBlock(m, Separated(text) + block, next)| > |Separated(text)| + |next|;
  }

  lemma SpliceForm(m: Markers, text: string, block: string, start: nat, end: nat) returns (left: string)
    requires Find(text, m.begin) == Some(start) && Find(text, m.end) == Some(end) && start < end
    ensures WithBlock(m, text, block) == text[..start] + block + left
  {
    left := StripNewline(text[end + |m.end|..]);
  }

  /** With a stray begin marker and no end marker, the second write cuts back to the stray one. */
  lemma SecondWriteCutsBack(m: Markers, text: string, block: string, end: nat, next: string)
    returns (start: nat, left: string)
    requires GoodMarkers(m)
    requires IsBlock(m, block, end)
    requires Find(text, m.begin).Some? && Find(text, m.end).None?
    ensures start < |text| && Find(text, m.begin) == Some(start)
    ensures WithBlock(m, WithBlock(m, text, block), next) == text[..start] + next + left
  {
    MarkersAfterAppend(m, text, block, end);
    start := Find(text, m.begin).value;
    var once := Separated(text) + block;
    left := SpliceForm(m, once, next, start, |Separated(text)| + end);
    assert once[..start] == text[..start];
  }

  /** The first end marker then comes earlier than after a single write. */
  lemma CutBackDiffers(m: Markers, text: string, start: nat, left: string, next: string, nextEnd: nat)
    requires GoodMarkers(m)
    requires IsBlock(m, next, nextEnd)
    requires start < |text| && Find(text, m.end).None?
    ensures text[..start] + next + left != Separated(text) + next
  {
    FindInSeparated(text, m.end);
    assert |Separated(text)| >= |text|;
    NoMarkerBefore(text, m.end, start);
    FindBeforeBlock(text[..start], next, left, m.end, nextEnd);
    FindBeforeBlock(Separated(text), next, "", m.end, nextEnd);
    assert Separated(text) + next == Separated(text) + next + "";
  }

  /** A well-formed file is two texts without markers, around its block or before the place for one. */
  lemma AroundBlock(m: Markers, text: string) returns (before: string, after: string)
    requires GoodMarkers(m) && WellFormed(m, text)
    ensures Find(before, m.begin).None? && Find(before, m.end).None?
    ensures forall block :: WithBlock(m, text, block) == before + block + after
  {
    if Find(text, m.begin).None? {
      FindInSeparated(text, m.begin);
      FindInSeparated(text, m.end);
      before, after := Separated(text), "";
      assert forall block: string :: before + block + "" == before + block;
    } else {
      var start, stop := Find(text, m.begin).value, Find(text, m.end).value;
      NoMarkerBefore(text, m.begin, start);
      NoMarkerBefore(text, m.end, start);
      before, after := text[..start], StripNewline(text[stop + |m.end|..]);
    }
  }

  lemma LastBlockWins(m: Markers, text: string, block: string, end: nat, next: string, nextEnd: nat)
    requires GoodMarkers(m)
    requires IsBlock(m, block, end) && IsBlock(m, next, nextEnd)
    ensures WithBlock(m, WithBlock(m, text, block), next) == WithBlock(m, text, next)
       <==> WellFormed(m, text) && end + |m.end| + 1 == |block|
  {
    if WellFormed(m, text) {
      var before, after := AroundBlock(m, text);
      SecondBlockReplacesFirst(m, before, after, block, end, next);
    } else if Find(text, m.end).Some? {
      SecondWriteAppends(m, text, block, end, next);
    } else {
      var start, left := SecondWriteCutsBack(m, text, block, end, next);
      CutBackDiffers(m, text, start, left, next, nextEnd);
    }
  }

  /**
   * Writing `a` and then `b` leaves what writing `b` alone leaves, exactly when the file has no marker or its
   * first begin marker precedes its first end marker, and `a` does not itself contain an end marker.
   */
  lemma LastWriterWins(text: string, a: string, b: string)
    ensures Updated(Updated(text, a), b) == Updated(text, b) <==> WellFormed(MARKERS, text) && !Contains(a, MARKERS.end)
  {
    var end := BlockIsBlock(a);
    var nextEnd := BlockIsBlock(b);
    MarkersAreShaped();
    LastBlockWins(MARKERS, text, Block(a), end, Block(b), nextEnd);
  }

  /** The promise that a repeated write changes nothing holds under the same condition. */
  lemma WriteIsIdempotent(text: string, identity: string)
    ensures Updated(Updated(text, identity), identity) == Updated(text, identity)
       <==> WellFormed(MARKERS, text) && !Contains(identity, MARKERS.end)
  {
    LastWriterWins(text, identity, identity);
  }

  /** A file of one stray end marker: every write appends a block of its own, so the first one's stays. */
  lemma StrayEndKeepsFirstWriter(a: string, b: string)
    ensures Updated(Updated(MARKERS.end, a), b) == Separated(Separated(MARKERS.end) + Block(a)) + Block(b)
    ensures Updated(Updated(MARKERS.end, a), b) != Updated(MARKERS.end, b)
  {
    StrayEnd();
    LastWriterWins(MARKERS.end, a, b);
    var end := BlockIsBlock(a);
    MarkersAreShaped();
    BothAppend(MARKERS, MARKERS.end, Block(a), end, Block(b));
  }

  lemma StrayEnd()
    ensures Find(MARKERS.end, MARKERS.begin).None? && Find(MARKERS.end, MARKERS.end) == Some(0)
  {
    EndIsNotBegin();
    MarkerInItself(MARKERS.end, "");
    NothingInFront(MARKERS.end);
  }

  lemma BothAppend(m: Markers, text: string, block: string, end: nat, next: string)
    requires GoodMarkers(m)
    requires IsBlock(m, block, end)
    requires Find(text, m.begin).None? && Find(text, m.end) == Some(0)
    ensures WithBlock(m, WithBlock(m, text, block), next) == Separated(Separated(text) + block) + next
  {
    MarkersAfterAppend(m, text, block, end);
  }

  /** An identity that is itself an end marker defeats the second write, even in a new file. */
  lemma MarkerAsIdentityIsLeftOver(b: string)
    ensures Updated(Updated("", MARKERS.end), b) != Updated("", b)
  {
    var end := MARKERS.end;
    MarkerInItself(end, "");
    NothingInFront(end);
    FoundIfContained(end, end);
    LastWriterWins("", end, b);
  }

  // ----- The text outside the markers -----

  /** A block up to its end marker, without the newline that closes the marker's line. */
  function Section(m: Markers, body: string): string {
    m.begin + "\n" + body + m.end
  }

  /** Where the section of a well-formed file begins, and where its end marker ends. */
  function SectionBounds(m: Markers, text: string): (r: (nat, nat))
    requires HasSection(m, text)
    ensures r.0 <= r.1 <= |text|
  {
    (Find(text, m.begin).value, Find(text, m.end).value + |m.end|)
  }

  lemma ClosedOrNot(before: string, section: string, after: string)
    ensures var written := before + (section + "\n") + StripNewline(after);
            && (after != "" && after[0] == '\n' ==> written == before + section + after)
            && (!(after != "" && after[0] == '\n') ==> written == before + section + "\n" + after)
  {
    Regroup(before, section, "\n");
    if after != "" && after[0] == '\n' {
      FrontAndRest(after);
      Regroup(before + section, "\n", after[1..]);
    }
  }

  lemma OneMoreNewline(front: string, after: string)
    ensures front + "\n" + after != front + after
  {
    assert |front + "\n" + after| == |front + after| + 1;
  }

  lemma SpliceOfSection(m: Markers, text: string, block: string)
    requires HasSection(m, text)
    ensures var (start, end) := SectionBounds(m, text);
            WithBlock(m, text, block) == text[..start] + block + StripNewline(text[end..])
  {
    var (start, end) := SectionBounds(m, text);
    SpliceIs(m, text, block, start, end - |m.end|);
  }

  lemma SectionIsReplaced(m: Markers, text: string, body: string)
    requires HasSection(m, text)
    ensures var (start, end) := SectionBounds(m, text);
            var (kept, after) := (text[..start] + Section(m, body), text[end..]);
            && WithBlock(m, text, Marked(m, body))
               == (if after != "" && after[0] == '\n' then kept + after else kept + "\n" + after)
            && (WithBlock(m, text, Marked(m, body)) == kept + after <==> after != "" && after[0] == '\n')
  {
    var (start, end) := SectionBounds(m, text);
    var section := Section(m, body);
    SpliceOfSection(m, text, section + "\n");
    ClosedOrNot(text[..start], section, text[end..]);
    OneMoreNewline(text[..start] + section, text[end..]);
  }

  /** Without a section the whole text is kept: its last line is closed, and a blank line goes before the block. */
  lemma AppendedBehindText(m: Markers, text: string, block: string)
    requires !HasSection(m, text)
    ensures WithBlock(m, text, block)
         == (if text == "" then "" else if text[|text| - 1] == '\n' then text + "\n" else text + "\n\n") + block
  {
  }

  /**
   * What a write does outside the markers. Without a section it keeps the text, closes its last line and puts a
   * blank line before the block. With one, every byte before the begin marker and behind the end marker comes back
   * unchanged exactly when a newline follows the end marker; otherwise a newline is put there, and nothing else
   * changes.
   */
  lemma OutsideIsKept(text: string, identity: string)
    ensures !HasSection(MARKERS, text) ==>
              Updated(text, identity)
              == (if text == "" then "" else if text[|text| - 1] == '\n' then text + "\n" else text + "\n\n")
                 + Block(identity)
    ensures HasSection(MARKERS, text) ==>
              var (start, end) := SectionBounds(MARKERS, text);
              var kept := text[..start] + Section(MARKERS, Render(TEMPLATE, identity));
              && (Updated(text, identity) == kept + text[end..] <==> text[end..] != "" && text[end..][0] == '\n')
              && (Updated(text, identity) == kept + text[end..]
                  || Updated(text, identity) == kept + "\n" + text[end..])
  {
    if HasSection(MARKERS, text) {
      SectionIsReplaced(MARKERS, text, Render(TEMPLATE, identity));
    } else {
      AppendedBehindText(MARKERS, text, Block(identity));
    }
  }

  /** A file whose end marker is its last byte: a write adds a newline behind it, outside the markers. */
  lemma SectionAtEndGetsNewline(identity: string)
    ensures var text := MARKERS.begin + "\n" + MARKERS.end;
            && HasSection(MARKERS, text) && SectionBounds(MARKERS, text) == (0, |text|)
            && Updated(text, identity) == Section(MARKERS, Render(TEMPLATE, identity)) + "\n"
  {
    MarkersAreGood();
    EmptySectionIsReplaced(MARKERS, Render(TEMPLATE, identity));
  }

  lemma EmptySectionIsReplaced(m: Markers, body: string)
    requires GoodMarkers(m) && Find(m.begin, m.end).None?
    ensures var text := m.begin + "\n" + m.end;
            && HasSection(m, text) && SectionBounds(m, text) == (0, |text|)
            && WithBlock(m, text, Marked(m, body)) == Section(m, body) + "\n"
  {
    var text := m.begin + "\n" + m.end;
    EmptySection(m);
    SectionIsReplaced(m, text, body);
    NothingInFront(Section(m, body));
    NothingInFront(Section(m, body) + "\n");
    assert text[..0] == "" && text[|text|..] == "";
  }

  lemma BoundsAre(m: Markers, text: string, start: nat, end: nat)
    requires Find(text, m.begin) == Some(start) && Find(text, m.end) == Some(end) && start < end
    ensures HasSection(m, text) && SectionBounds(m, text) == (start, end + |m.end|)
  {
  }

  lemma LastNewlineFollows(block: string, n: nat, after: string)
    requires n + 1 == |block| && block[n] == '\n'
    ensures (block[n..] + after)[0] == '\n'
  {
  }

  /** There is a section, and a newline follows its end marker. */
  predicate HasClosedSection(m: Markers, text: string) {
    && HasSection(m, text)
    && text[SectionBounds(m, text).1..] != "" && text[SectionBounds(m, text).1..][0] == '\n'
  }

  lemma ClosedAround(m: Markers, before: string, after: string, block: string, end: nat) returns (text: string)
    requires GoodMarkers(m)
    requires IsBlock(m, block, end) && end + |m.end| + 1 == |block|
    requires Find(before, m.begin).None? && Find(before, m.end).None?
    ensures text == before + block + after && HasClosedSection(m, text)
  {
    text := FoundBlock(m, before, after, block, end);
    BoundsAre(m, text, |before|, |before| + end);
    LastNewlineFollows(block, end + |m.end|, after);
  }

  /** Behind a block that was just written comes the newline of its last line, unless the identity moved its end. */
  lemma BlockIsClosed(m: Markers, text: string, block: string, end: nat)
    requires GoodMarkers(m) && WellFormed(m, text)
    requires IsBlock(m, block, end) && end + |m.end| + 1 == |block|
    ensures HasClosedSection(m, WithBlock(m, text, block))
  {
    var before, after := AroundBlock(m, text);
    var once := ClosedAround(m, before, after, block, end);
  }

  /**
   * So a write never touches the text outside the section an earlier write left, whatever the two identities, as
   * long as the first holds no end marker: only a section someone else wrote can lack the newline.
   */
  lemma LaterWritesKeepOutside(text: string, a: string, b: string)
    requires WellFormed(MARKERS, text) && !Contains(a, MARKERS.end)
    ensures var once := Updated(text, a);
            && HasSection(MARKERS, once)
            && var (start, end) := SectionBounds(MARKERS, once);
               Updated(once, b) == once[..start] + Section(MARKERS, Render(TEMPLATE, b)) + once[end..]
  {
    var end := BlockIsBlock(a);
    MarkersAreGood();
    BlockIsClosed(MARKERS, text, Block(a), end);
    OutsideIsKept(Updated(text, a), b);
  }

  lemma EmptySection(m: Markers)
    requires GoodMarkers(m) && Find(m.begin, m.end).None?
    ensures var text := m.begin + "\n" + m.end;
            HasSection(m, text) && SectionBounds(m, text) == (0, |text|)
  {
    MarkerInItself(m.end, "");
    NothingInFront(m.end);
    EndBehindHead(m, "\n", m.end, 0);
    Regroup(m.begin, "\n", m.end);
  }
}
