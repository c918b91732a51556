/** Lexical path regions: what it means for one manifest path to lie within another. */
module Paths {

  datatype Root = Home | Absolute | Project

  datatype Region = Region(root: Root, components: seq<string>)

  /** The parts of a text with one more character in front. */
  function Attach(c: char, parts: seq<string>): (longer: seq<string>)
    requires parts != []
    ensures longer != []
  {
    if c == '/' then [""] + parts else [[c] + parts[0]] + parts[1..]
  }

  function SplitSlash(path: string): (parts: seq<string>)
    ensures parts != []
  {
    if path == "" then [""] else Attach(path[0], SplitSlash(path[1..]))
  }

  function DropDots(parts: seq<string>): seq<string> {
    if parts == [] then []
    else (if parts[0] != "" && parts[0] != "." then [parts[0]] else []) + DropDots(parts[1..])
  }

  function RootAndRest(path: string): (Root, string) {
    if path == "~" then (Home, "")
    else if "~/" <= path then (Home, path[2..])
    else if "/" <= path then (Absolute, path[1..])
    else (Project, path)
  }

  /** The region a path names: its root, and its components without `.` and empty segments. */
  function Components(path: string): Region {
    var (root, rest) := RootAndRest(path);
    Region(root, DropDots(SplitSlash(rest)))
  }

  predicate HasTraversal(path: string) {
    ".." in Components(path).components
  }

  /** Whether `candidate` falls within, or equals, the region `granted` covers. */
  predicate IsWithin(candidate: string, granted: string) {
    var c, g := Components(candidate), Components(granted);
    && c.root == g.root
    && |c.components| >= |g.components|
    && c.components[..|g.components|] == g.components
  }

  predicate StrictlyWithin(candidate: string, granted: string) {
    IsWithin(candidate, granted) && !IsWithin(granted, candidate)
  }

  // ----- Regions form a forest -----

  /** Containment is a preorder whose equivalence is naming the same region. */
  lemma WithinIsOrder(a: string, b: string, c: string)
    ensures IsWithin(a, a)
    ensures IsWithin(a, b) && IsWithin(b, c) ==> IsWithin(a, c)
    ensures IsWithin(a, b) && IsWithin(b, a) <==> Components(a) == Components(b)
  {
    var x, y, z := Components(a).components, Components(b).components, Components(c).components;
    if IsWithin(a, b) && IsWithin(b, c) {
      assert x[..|z|] == x[..|y|][..|z|];
    }
    assert IsWithin(a, b) && IsWithin(b, a) ==> x == y;
  }

  /** Two regions that share a path are nested one way or the other. */
  lemma WithinIsForest(path: string, a: string, b: string)
    requires IsWithin(path, a) && IsWithin(path, b)
    ensures IsWithin(a, b) || IsWithin(b, a)
  {
    var p, x, y := Components(path).components, Components(a).components, Components(b).components;
    assert |x| <= |y| ==> p[..|y|][..|x|] == p[..|x|];
    assert |y| <= |x| ==> p[..|x|][..|y|] == p[..|y|];
  }

  // ----- Containment is what joining paths produces -----

  lemma SplitFirst(c: char, rest: string)
    ensures SplitSlash([c] + rest) == Attach(c, SplitSlash(rest))
  {
    assert ([c] + rest)[1..] == rest;
  }

  lemma AttachConcat(c: char, x: seq<string>, y: seq<string>)
    requires x != []
    ensures Attach(c, x + y) == Attach(c, x) + y
  {
    assert (x + y)[0] == x[0] && (x + y)[1..] == x[1..] + y;
  }

  lemma {:induction false} SplitJoined(a: string, b: string)
    ensures SplitSlash(a + "/" + b) == SplitSlash(a) + SplitSlash(b)
  {
    if a == "" {
      SplitFirst('/', b);
      assert a + "/" + b == ['/'] + b;
    } else {
      var c, rest := a[0], a[1..];
      SplitJoined(rest, b);
      assert a + "/" + b == [c] + (rest + "/" + b);
      SplitFirst(c, rest + "/" + b);
      AttachConcat(c, SplitSlash(rest), SplitSlash(b));
    }
  }

  lemma {:induction false} DropDotsConcat(p: seq<string>, q: seq<string>)
    ensures DropDots(p + q) == DropDots(p) + DropDots(q)
  {
    if p == [] {
      assert p + q == q;
    } else {
      assert (p + q)[1..] == p[1..] + q;
      DropDotsConcat(p[1..], q);
    }
  }

  lemma RootPrefixes(path: string)
    ensures "~/" <= path <==> |path| >= 2 && path[0] == '~' && path[1] == '/'
    ensures "/" <= path <==> |path| >= 1 && path[0] == '/'
    ensures path == "~" <==> |path| == 1 && path[0] == '~'
  {
    assert |path| >= 2 ==> path[..2] == [path[0], path[1]];
    assert |path| >= 1 ==> path[..1] == [path[0]];
  }

  lemma RootOfJoined(granted: string, more: string)
    requires granted != "" && granted != "~"
    ensures RootAndRest(granted + "/" + more) == (RootAndRest(granted).0, RootAndRest(granted).1 + "/" + more)
  {
    var joined := granted + "/" + more;
    RootPrefixes(granted);
    RootPrefixes(joined);
    assert joined[0] == granted[0] && joined[1] == if |granted| > 1 then granted[1] else '/';
    if "~/" <= granted {
      assert joined[2..] == granted[2..] + "/" + more;
    } else if "/" <= granted {
      assert joined[1..] == granted[1..] + "/" + more;
    }
  }

  /** A nonempty path joined with more components names a region inside it. */
  lemma JoinedComponents(granted: string, more: string)
    requires granted != ""
    ensures Components(granted + "/" + more)
         == Region(Components(granted).root, Components(granted).components + DropDots(SplitSlash(more)))
  {
    var joined := granted + "/" + more;
    var (root, rest) := RootAndRest(granted);
    if granted == "~" {
      assert joined == "~/" + more && joined[2..] == more;
      assert DropDots(SplitSlash("")) == [];
    } else {
      RootOfJoined(granted, more);
      SplitJoined(rest, more);
      DropDotsConcat(SplitSlash(rest), SplitSlash(more));
    }
  }

  /** Components as they come out of a path. */
  predicate AreComponents(parts: seq<string>) {
    forall i :: 0 <= i < |parts| ==> parts[i] != "" && parts[i] != "." && '/' !in parts[i]
  }

  lemma {:induction false} SplitHasNoSlash(path: string)
    ensures forall i :: 0 <= i < |SplitSlash(path)| ==> '/' !in SplitSlash(path)[i]
  {
    if path != "" {
      SplitHasNoSlash(path[1..]);
    }
  }

  lemma {:induction false} DropDotsComponents(parts: seq<string>)
    requires forall i :: 0 <= i < |parts| ==> '/' !in parts[i]
    ensures AreComponents(DropDots(parts))
  {
    if parts != [] {
      DropDotsComponents(parts[1..]);
    }
  }

  function JoinSlash(parts: seq<string>): string {
    if parts == [] then "" else parts[0] + "/" + JoinSlash(parts[1..])
  }

  lemma {:induction false} OneComponent(part: string)
    requires '/' !in part
    ensures SplitSlash(part) == [part]
  {
    if part != "" {
      OneComponent(part[1..]);
      SplitFirst(part[0], part[1..]);
      assert part == [part[0]] + part[1..];
    }
  }

  lemma {:induction false} JoinThenSplit(parts: seq<string>)
    requires AreComponents(parts)
    ensures DropDots(SplitSlash(JoinSlash(parts))) == parts
  {
    if parts != [] {
      JoinThenSplit(parts[1..]);
      SplitJoined(parts[0], JoinSlash(parts[1..]));
      OneComponent(parts[0]);
      DropDotsConcat([parts[0]], SplitSlash(JoinSlash(parts[1..])));
      assert DropDots([parts[0]]) == [parts[0]];
    }
  }

  /** Being within a path is naming the same region as that path joined with something. */
  lemma WithinIsJoining(candidate: string, granted: string)
    requires granted != ""
    ensures IsWithin(candidate, granted)
       <==> exists more :: Components(candidate) == Components(granted + "/" + more)
  {
    if IsWithin(candidate, granted) {
      var c, g := Components(candidate).components, Components(granted).components;
      var left := c[|g|..];
      SplitHasNoSlash(RootAndRest(candidate).1);
      DropDotsComponents(SplitSlash(RootAndRest(candidate).1));
      JoinThenSplit(left);
      JoinedComponents(granted, JoinSlash(left));
      assert c == g + left;
    }
    forall more | Components(candidate) == Components(granted + "/" + more) ensures IsWithin(candidate, granted) {
      JoinedComponents(granted, more);
    }
  }

  // ----- Regions and traversal, read off the text -----

  lemma WrittenAtHome(text: string)
    ensures RootAndRest("~" + "/" + text) == (Home, text)
  {
    var path := "~" + "/" + text;
    RootPrefixes(path);
    assert path[2..] == text;
  }

  lemma WrittenAtRoot(text: string)
    ensures RootAndRest("/" + text) == (Absolute, text)
  {
    RootPrefixes("/" + text);
    assert ("/" + text)[1..] == text;
  }

  lemma WrittenInProject(parts: seq<string>)
    requires AreComponents(parts) && (parts != [] ==> parts[0] != "~")
    ensures RootAndRest(JoinSlash(parts)) == (Project, JoinSlash(parts))
  {
    RootPrefixes(JoinSlash(parts));
    if parts != [] {
      FirstOfJoined(parts);
    }
  }

  /** What the three ways of writing a path name, whatever its components. */
  lemma WrittenPath(parts: seq<string>)
    requires AreComponents(parts)
    ensures Components("~" + "/" + JoinSlash(parts)) == Region(Home, parts)
    ensures Components("/" + JoinSlash(parts)) == Region(Absolute, parts)
    ensures (parts != [] ==> parts[0] != "~") ==> Components(JoinSlash(parts)) == Region(Project, parts)
  {
    JoinThenSplit(parts);
    WrittenAtHome(JoinSlash(parts));
    WrittenAtRoot(JoinSlash(parts));
    if parts != [] ==> parts[0] != "~" {
      WrittenInProject(parts);
    }
  }

  lemma FirstOfJoined(parts: seq<string>)
    requires AreComponents(parts) && parts != []
    ensures JoinSlash(parts) != "" && JoinSlash(parts)[0] == parts[0][0] && JoinSlash(parts)[0] != '/'
    ensures |JoinSlash(parts)| >= 2
    ensures JoinSlash(parts)[0] == '~' && JoinSlash(parts)[1] == '/' ==> parts[0] == "~"
  {
    var first, more := parts[0], JoinSlash(parts[1..]);
    assert JoinSlash(parts) == first + "/" + more;
    assert |first| >= 2 ==> JoinSlash(parts)[1] == first[1];
  }

  /** A piece of the path between slashes, or between a slash and an end. */
  ghost predicate IsSegment(path: string, segment: string) {
    exists a, b :: IsSegmentBetween(path, segment, a, b)
  }

  predicate IsSegmentBetween(path: string, segment: string, a: string, b: string) {
    path == a + segment + b && (a == "" || a[|a| - 1] == '/') && (b == "" || b[0] == '/')
  }

  lemma {:induction false} SplitIsSegment(path: string, k: nat) returns (a: string, b: string)
    requires k < |SplitSlash(path)|
    ensures IsSegmentBetween(path, SplitSlash(path)[k], a, b)
    ensures k == 0 <==> a == ""
  {
    if path == "" {
      a, b := "", "";
    } else {
      assert path == [path[0]] + path[1..];
      if k == 0 && path[0] == '/' {
        a, b := "", path;
      } else {
        var a', b' := SplitIsSegment(path[1..], if path[0] == '/' then k - 1 else k);
        a, b := if k == 0 then "" else [path[0]] + a', b';
      }
    }
  }

  lemma FirstSegment(segment: string, b: string)
    requires '/' !in segment && (b == "" || b[0] == '/')
    ensures segment in SplitSlash(segment + b)
  {
    OneComponent(segment);
    if b == "" {
      assert segment + b == segment;
    } else {
      SplitJoined(segment, b[1..]);
      assert segment + b == segment + "/" + b[1..];
    }
  }

  lemma SegmentIsSplit(path: string, segment: string, a: string, b: string)
    requires '/' !in segment && IsSegmentBetween(path, segment, a, b)
    ensures segment in SplitSlash(path)
  {
    FirstSegment(segment, b);
    if a == "" {
      assert path == segment + b;
    } else {
      SplitJoined(a[..|a| - 1], segment + b);
      assert path == a[..|a| - 1] + "/" + (segment + b);
    }
  }

  lemma {:induction false} DropDotsKeeps(parts: seq<string>, part: string)
    requires part != "" && part != "."
    ensures part in DropDots(parts) <==> part in parts
  {
    if parts != [] {
      DropDotsKeeps(parts[1..], part);
      assert parts == [parts[0]] + parts[1..];
    }
  }

  lemma RootIsNoSegment(path: string, segment: string)
    requires segment != "" && segment != "~"
    ensures segment in SplitSlash(RootAndRest(path).1) <==> segment in SplitSlash(path)
  {
    var (root, rest) := RootAndRest(path);
    RootPrefixes(path);
    if path == "~" {
      OneComponent("~");
    } else if "~/" <= path {
      assert path == "~" + "/" + rest;
      SplitJoined("~", rest);
      OneComponent("~");
    } else if "/" <= path {
      assert path == "" + "/" + rest;
      SplitJoined("", rest);
    }
  }

  /** A path has a traversal exactly when two dots stand between slashes somewhere in its text. */
  lemma TraversalIff(path: string)
    ensures HasTraversal(path) <==> IsSegment(path, "..")
  {
    DropDotsKeeps(SplitSlash(RootAndRest(path).1), "..");
    RootIsNoSegment(path, "..");
    if ".." in SplitSlash(path) {
      var k :| 0 <= k < |SplitSlash(path)| && SplitSlash(path)[k] == "..";
      var a, b := SplitIsSegment(path, k);
    }
    if IsSegment(path, "..") {
      var a, b :| IsSegmentBetween(path, "..", a, b);
      SegmentIsSplit(path, "..", a, b);
    }
  }
}
