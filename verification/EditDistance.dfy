/** The suggestion for a misspelled manifest key: Levenshtein distance and the closest known name. */
module EditDistance {
  import opened Wrappers

  // ----- Edit scripts: the meaning of the distance -----

  datatype Edit = Keep | Insert(c: char) | Delete | Substitute(c: char)

  /** Runs a script over `a` from left to right; it must use up all of `a`. */
  function Apply(script: seq<Edit>, a: string): Option<string> {
    if script == [] then
      if a == "" then Some("") else None
    else
      match script[0]
      case Insert(c) => Prepend([c], Apply(script[1..], a))
      case Keep => if a == "" then None else Prepend([a[0]], Apply(script[1..], a[1..]))
      case Delete => if a == "" then None else Apply(script[1..], a[1..])
      case Substitute(c) => if a == "" then None else Prepend([c], Apply(script[1..], a[1..]))
  }

  function Prepend(head: string, rest: Option<string>): Option<string> {
    match rest
    case None => None
    case Some(s) => Some(head + s)
  }

  function Cost(script: seq<Edit>): nat {
    if script == [] then 0 else (if script[0] == Keep then 0 else 1) + Cost(script[1..])
  }

  ghost predicate Turns(script: seq<Edit>, a: string, b: string) {
    Apply(script, a) == Some(b)
  }

  // ----- The recurrence the two rows tabulate -----

  function Min(a: nat, b: nat): nat {
    if a <= b then a else b
  }

  function Distance(a: string, b: string): nat
    decreases |a| + |b|
  {
    if a == "" then |b|
    else if b == "" then |a|
    else
      var a', b' := a[..|a| - 1], b[..|b| - 1];
      var cost := if a[|a| - 1] == b[|b| - 1] then 0 else 1;
      Min(Min(Distance(a', b) + 1, Distance(a, b') + 1), Distance(a', b') + cost)
  }

  /** One cell of the table: the distance between the first `i` characters of `a` and the first `j` of `b`. */
  function Cell(a: string, b: string, i: nat, j: nat): nat
    requires i <= |a| && j <= |b|
  {
    Distance(a[..i], b[..j])
  }

  lemma CellEdge(a: string, b: string, i: nat, j: nat)
    requires i <= |a| && j <= |b|
    ensures Cell(a, b, i, 0) == i && Cell(a, b, 0, j) == j
  {
    assert b[..0] == "" && a[..0] == "";
  }

  lemma CellStep(a: string, b: string, i: nat, j: nat)
    requires 1 <= i <= |a| && 1 <= j <= |b|
    ensures Cell(a, b, i, j) ==
            Min(Min(Cell(a, b, i - 1, j) + 1, Cell(a, b, i, j - 1) + 1),
                Cell(a, b, i - 1, j - 1) + if a[i - 1] == b[j - 1] then 0 else 1)
  {
    assert a[..i][..i - 1] == a[..i - 1] && b[..j][..j - 1] == b[..j - 1];
  }

  /** The two-row table: `prev` holds the distances from one prefix of `a` to every prefix of `b`. */
  method Compute(a: string, b: string) returns (distance: nat)
    ensures distance == Distance(a, b)
  {
    var prev := new nat[|b| + 1](j => j);
    forall j | 0 <= j <= |b| ensures prev[j] == Cell(a, b, 0, j) {
      CellEdge(a, b, 0, j);
    }
    for i := 1 to |a| + 1
      invariant prev.Length == |b| + 1
      invariant forall j :: 0 <= j <= |b| ==> prev[j] == Cell(a, b, i - 1, j)
    {
      var cur := new nat[|b| + 1](_ => i);
      CellEdge(a, b, i, 0);
      for j := 1 to |b| + 1
        invariant forall k :: 0 <= k < j ==> cur[k] == Cell(a, b, i, k)
        invariant forall k :: 0 <= k <= |b| ==> prev[k] == Cell(a, b, i - 1, k)
      {
        var cost := if a[i - 1] == b[j - 1] then 0 else 1;
        CellStep(a, b, i, j);
        cur[j] := Min(Min(prev[j] + 1, cur[j - 1] + 1), prev[j - 1] + cost);
      }
      prev := cur;
    }
    distance := prev[|b|];
    assert a[..|a|] == a && b[..|b|] == b;
  }

  // ----- The distance is the length of a shortest script -----

  lemma {:induction false} ApplyConcat(s: seq<Edit>, t: seq<Edit>, a1: string, a2: string, b1: string, b2: string)
    requires Turns(s, a1, b1) && Turns(t, a2, b2)
    ensures Turns(s + t, a1 + a2, b1 + b2)
    decreases |s|
  {
    if s == [] {
      assert s + t == t && a1 + a2 == a2 && b1 + b2 == b2;
    } else {
      var s' := s[1..];
      assert (s + t)[1..] == s' + t && (s + t)[0] == s[0];
      if s[0].Insert? {
        ApplyConcat(s', t, a1, a2, b1[1..], b2);
      } else {
        assert (a1 + a2)[1..] == a1[1..] + a2 && (a1 + a2)[0] == a1[0];
        var b1' := Apply(s', a1[1..]).value;
        ApplyConcat(s', t, a1[1..], a2, b1', b2);
      }
      assert b1 + b2 == b1[..|b1| - |Apply(s', if s[0].Insert? then a1 else a1[1..]).value|]
                        + (Apply(s', if s[0].Insert? then a1 else a1[1..]).value + b2);
    }
  }

  lemma {:induction false} CostConcat(s: seq<Edit>, t: seq<Edit>)
    ensures Cost(s + t) == Cost(s) + Cost(t)
    decreases |s|
  {
    if s == [] {
      assert s + t == t;
    } else {
      assert (s + t)[1..] == s[1..] + t;
      CostConcat(s[1..], t);
    }
  }

  /** What a script of a single edit does. */
  lemma OneEdit(edit: Edit, x: string, y: string)
    ensures Turns([edit], x, y) <==>
            (match edit
             case Keep => |x| == 1 && y == x
             case Insert(c) => x == "" && y == [c]
             case Delete => |x| == 1 && y == ""
             case Substitute(c) => |x| == 1 && y == [c])
  {
    assert [edit][1..] == [] && [edit][0] == edit;
    if x == "" {
      assert Apply([edit][1..], x) == Some("");
      assert edit.Insert? ==> [edit.c] + "" == [edit.c];
    } else {
      assert Apply([edit][1..], x[1..]) == if |x| == 1 then Some("") else None;
      assert |x| == 1 ==> x == [x[0]] && [x[0]] + "" == x;
      assert edit.Insert? ==> !Turns([edit], x, y) by {
        if edit.Insert? {
          assert Apply([edit][1..], x) == None;
        }
      }
      assert edit.Substitute? ==> [edit.c] + "" == [edit.c];
    }
  }

  // A shortest script, read off the recurrence.

  function Inserts(b: string): seq<Edit> {
    if b == "" then [] else [Insert(b[0])] + Inserts(b[1..])
  }

  function Deletes(n: nat): seq<Edit> {
    if n == 0 then [] else [Delete] + Deletes(n - 1)
  }

  lemma {:induction false} InsertsTurn(b: string)
    ensures Turns(Inserts(b), "", b) && Cost(Inserts(b)) == |b|
  {
    if b != "" {
      InsertsTurn(b[1..]);
      assert b == [b[0]] + b[1..];
    }
  }

  lemma {:induction false} DeletesTurn(a: string)
    ensures Turns(Deletes(|a|), a, "") && Cost(Deletes(|a|)) == |a|
  {
    if a != "" {
      DeletesTurn(a[1..]);
    }
  }

  lemma ExtendScript(script: seq<Edit>, last: Edit, a: string, b: string, x: string, y: string)
    requires Turns(script, a, b) && Turns([last], x, y)
    ensures Turns(script + [last], a + x, b + y)
    ensures Cost(script + [last]) == Cost(script) + if last == Keep then 0 else 1
  {
    ApplyConcat(script, [last], a, x, b, y);
    CostConcat(script, [last]);
  }

  lemma {:induction false} ScriptOfDistance(a: string, b: string) returns (script: seq<Edit>)
    ensures Turns(script, a, b) && Cost(script) == Distance(a, b)
    decreases |a| + |b|
  {
    if a == "" {
      InsertsTurn(b);
      script := Inserts(b);
    } else if b == "" {
      DeletesTurn(a);
      script := Deletes(|a|);
    } else {
      var a', x := a[..|a| - 1], a[|a| - 1];
      var b', y := b[..|b| - 1], b[|b| - 1];
      assert a' + [x] == a && b' + [y] == b && a + "" == a && b + "" == b;
      if Distance(a, b) == Distance(a', b) + 1 {
        script := ScriptOfDistance(a', b);
        OneEdit(Delete, [x], "");
        ExtendScript(script, Delete, a', b, [x], "");
        script := script + [Delete];
      } else if Distance(a, b) == Distance(a, b') + 1 {
        script := ScriptOfDistance(a, b');
        OneEdit(Insert(y), "", [y]);
        ExtendScript(script, Insert(y), a, b', "", [y]);
        script := script + [Insert(y)];
      } else {
        script := ScriptOfDistance(a', b');
        var last := if x == y then Keep else Substitute(y);
        OneEdit(last, [x], [y]);
        ExtendScript(script, last, a', b', [x], [y]);
        script := script + [last];
      }
    }
  }

  // No script is shorter: the last edit of a script is one of the three cases of the recurrence.

  lemma {:induction false} SplitLast(script: seq<Edit>, a: string, b: string)
    returns (a': string, x: string, b': string, y: string)
    requires script != [] && Turns(script, a, b)
    ensures a == a' + x && b == b' + y
    ensures Turns(script[..|script| - 1], a', b') && Turns([script[|script| - 1]], x, y)
    decreases |script|
  {
    if |script| == 1 {
      assert script == [script[0]] && script[..0] == [];
      a', x, b', y := "", a, "", b;
      assert Apply(script[..|script| - 1], a') == Some(b');
    } else {
      var rest := script[1..];
      assert rest[|rest| - 1] == script[|script| - 1];
      var init := script[..|script| - 1];
      assert init[1..] == rest[..|rest| - 1] && init[0] == script[0];
      if script[0].Insert? {
        var p, q, r, s := SplitLast(rest, a, b[1..]);
        a', x, b', y := p, q, [b[0]] + r, s;
        assert Apply(init, a') == Some(b');
      } else {
        var bRest := Apply(rest, a[1..]).value;
        var p, q, r, s := SplitLast(rest, a[1..], bRest);
        a', x, b', y := [a[0]] + p, q, b[..|b| - |bRest|] + r, s;
        assert a'[1..] == p && a'[0] == a[0];
        assert b == b[..|b| - |bRest|] + bRest;
        assert script[0] == Delete ==> b[..|b| - |bRest|] + r == r;
        assert script[0] != Delete ==> b[..|b| - |bRest|] == [b[0]];
        assert Apply(init, a') == Some(b');
        assert a' + x == [a[0]] + (p + q);
      }
    }
  }

  lemma DistanceGrowsByOne(a: string, b: string)
    ensures a != "" ==> Distance(a, b) <= Distance(a[..|a| - 1], b) + 1
    ensures b != "" ==> Distance(a, b) <= Distance(a, b[..|b| - 1]) + 1
  {
  }

  lemma {:induction false} NoShorterScript(script: seq<Edit>, a: string, b: string)
    requires Turns(script, a, b)
    ensures Distance(a, b) <= Cost(script)
    decreases |script|
  {
    if script != [] {
      var last := script[|script| - 1];
      var init := script[..|script| - 1];
      assert script == init + [last];
      var a', x, b', y := SplitLast(script, a, b);
      NoShorterScript(init, a', b');
      CostConcat(init, [last]);
      OneEdit(last, x, y);
      assert Cost([last]) == if last == Keep then 0 else 1;
      assert if x == "" then a' == a else a[..|a| - 1] == a' && a[|a| - 1] == x[0];
      assert if y == "" then b' == b else b[..|b| - 1] == b' && b[|b| - 1] == y[0];
      DistanceGrowsByOne(a, b);
    }
  }

  /** The distance is attained by a script, and every script costs at least as much. */
  lemma DistanceIsShortest(a: string, b: string)
    ensures exists script :: Turns(script, a, b) && Cost(script) == Distance(a, b)
    ensures forall script :: Turns(script, a, b) ==> Distance(a, b) <= Cost(script)
  {
    var best := ScriptOfDistance(a, b);
    forall script | Turns(script, a, b) ensures Distance(a, b) <= Cost(script) {
      NoShorterScript(script, a, b);
    }
  }

  // ----- The distance is a metric -----

  /** The script that undoes an edit, given the character it consumed. */
  function Inverse(script: seq<Edit>, a: string): seq<Edit>
    requires Apply(script, a).Some?
  {
    if script == [] then []
    else
      match script[0]
      case Insert(_) => [Delete] + Inverse(script[1..], a)
      case Keep => [Keep] + Inverse(script[1..], a[1..])
      case Delete => [Insert(a[0])] + Inverse(script[1..], a[1..])
      case Substitute(_) => [Substitute(a[0])] + Inverse(script[1..], a[1..])
  }

  lemma {:induction false} InverseTurnsBack(script: seq<Edit>, a: string, b: string)
    requires Turns(script, a, b)
    ensures Turns(Inverse(script, a), b, a) && Cost(Inverse(script, a)) == Cost(script)
    decreases |script|
  {
    if script != [] {
      var rest := script[1..];
      var a' := if script[0].Insert? then a else a[1..];
      var b' := Apply(rest, a').value;
      InverseTurnsBack(rest, a', b');
      var inverse := Inverse(script, a);
      assert inverse[1..] == Inverse(rest, a');
      assert b == (if script[0].Delete? then "" else [b[0]]) + b';
      assert if script[0].Delete? then b == b' else b[1..] == b';
      assert if script[0].Insert? then a' == a else a == [a[0]] + a';
    }
  }

  /** Runs `p` and then `q` as one script, dropping what one inserts and the other deletes. */
  function Compose(p: seq<Edit>, q: seq<Edit>): seq<Edit>
    decreases |p| + |q|
  {
    if p == [] then q
    else if p[0] == Delete then [Delete] + Compose(p[1..], q)
    else if q == [] then p
    else if q[0].Insert? then [q[0]] + Compose(p, q[1..])
    else
      var rest := Compose(p[1..], q[1..]);
      match (p[0], q[0])
      case (Insert(_), Delete) => rest
      case (Insert(_), Substitute(d)) => [Insert(d)] + rest
      case (Keep, _) => [q[0]] + rest
      case (Substitute(_), Delete) => [Delete] + rest
      case (Substitute(_), Substitute(d)) => [Substitute(d)] + rest
      case (_, _) => [p[0]] + rest
  }

  lemma {:induction false} ComposeTurns(p: seq<Edit>, q: seq<Edit>, a: string, b: string, c: string)
    requires Turns(p, a, b) && Turns(q, b, c)
    ensures Turns(Compose(p, q), a, c) && Cost(Compose(p, q)) <= Cost(p) + Cost(q)
    decreases |p| + |q|
  {
    var r := Compose(p, q);
    if p == [] {
    } else if p[0] == Delete {
      ComposeTurns(p[1..], q, a[1..], b, c);
      assert r[1..] == Compose(p[1..], q);
    } else if q == [] {
    } else if q[0].Insert? {
      var c' := Apply(q[1..], b).value;
      ComposeTurns(p, q[1..], a, b, c');
      assert r[1..] == Compose(p, q[1..]);
    } else {
      var a' := if p[0].Insert? then a else a[1..];
      var b' := Apply(p[1..], a').value;
      assert b == [b[0]] + b' && b[1..] == b';
      var c' := Apply(q[1..], b').value;
      ComposeTurns(p[1..], q[1..], a', b', c');
      assert r != Compose(p[1..], q[1..]) ==> r[1..] == Compose(p[1..], q[1..]);
    }
  }

  lemma {:induction false} FreeScriptKeeps(script: seq<Edit>, a: string, b: string)
    requires Turns(script, a, b) && Cost(script) == 0
    ensures a == b
    decreases |script|
  {
    if script != [] {
      FreeScriptKeeps(script[1..], a[1..], Apply(script[1..], a[1..]).value);
    }
  }

  function Keeps(n: nat): seq<Edit> {
    if n == 0 then [] else [Keep] + Keeps(n - 1)
  }

  lemma {:induction false} KeepsTurn(a: string)
    ensures Turns(Keeps(|a|), a, a) && Cost(Keeps(|a|)) == 0
  {
    if a != "" {
      KeepsTurn(a[1..]);
      assert a == [a[0]] + a[1..];
    }
  }

  /** Zero exactly on equal strings, symmetric, and subject to the triangle inequality. */
  lemma DistanceIsMetric(a: string, b: string, c: string)
    ensures Distance(a, b) == 0 <==> a == b
    ensures Distance(a, b) == Distance(b, a)
    ensures Distance(a, c) <= Distance(a, b) + Distance(b, c)
  {
    var ab := ScriptOfDistance(a, b);
    var ba := ScriptOfDistance(b, a);
    var bc := ScriptOfDistance(b, c);
    if a == b {
      KeepsTurn(a);
      NoShorterScript(Keeps(|a|), a, b);
    } else if Cost(ab) == 0 {
      FreeScriptKeeps(ab, a, b);
    }
    InverseTurnsBack(ab, a, b);
    NoShorterScript(Inverse(ab, a), b, a);
    InverseTurnsBack(ba, b, a);
    NoShorterScript(Inverse(ba, b), a, b);
    ComposeTurns(ab, bc, a, b, c);
    NoShorterScript(Compose(ab, bc), a, c);
  }

  // ----- The suggestion -----

  /** The length of a string in bytes of UTF-8, which is what bounds the distance of a suggestion. */
  function Utf8Length(s: string): nat {
    if s == "" then 0
    else
      var point := s[0] as int;
      (if point < 0x80 then 1 else if point < 0x800 then 2 else if point < 0x10000 then 3 else 4) + Utf8Length(s[1..])
  }

  function MaxDistance(length: nat): nat {
    if length / 2 < 1 then 1 else if length / 2 > 3 then 3 else length / 2
  }

  /** The first of the nearest candidates among those near enough. */
  function Closest(key: string, candidates: seq<string>): Option<string> {
    if candidates == [] then None
    else
      var init, last := candidates[..|candidates| - 1], candidates[|candidates| - 1];
      var best := Closest(key, init);
      if Distance(key, last) > MaxDistance(Utf8Length(key)) then best
      else if best.Some? && Distance(key, best.value) <= Distance(key, last) then best
      else Some(last)
  }

  /** Within reach: three edits at most, and of more than one no more than half as many as the key has bytes. */
  ghost predicate NearEnough(key: string, candidate: string) {
    Distance(key, candidate) <= 3 && (Distance(key, candidate) <= 1 || 2 * Distance(key, candidate) <= Utf8Length(key))
  }

  lemma ReachIsMaxDistance(key: string, candidate: string)
    ensures NearEnough(key, candidate) <==> Distance(key, candidate) <= MaxDistance(Utf8Length(key))
  {
  }

  /** Text in ASCII has as many bytes as characters, and no character more than four. */
  lemma {:induction false} Utf8LengthOf(s: string)
    ensures |s| <= Utf8Length(s) <= 4 * |s|
    ensures (forall k :: 0 <= k < |s| ==> s[k] < '\U{80}') <==> Utf8Length(s) == |s|
  {
    if s != "" {
      Utf8LengthOf(s[1..]);
      assert forall k :: 1 <= k < |s| ==> s[k] == s[1..][k - 1];
    }
  }

  /** Candidate `i` is within reach, no candidate is nearer, and every earlier one is farther. */
  ghost predicate FirstNearest(key: string, candidates: seq<string>, i: nat) {
    && i < |candidates|
    && NearEnough(key, candidates[i])
    && (forall j :: 0 <= j < |candidates| ==> Distance(key, candidates[i]) <= Distance(key, candidates[j]))
    && (forall j :: 0 <= j < i ==> Distance(key, candidates[i]) < Distance(key, candidates[j]))
  }

  /** One more candidate, too far away or no nearer than the first nearest one, leaves that one first. */
  lemma FirstNearestStays(key: string, init: seq<string>, last: string, i: nat)
    requires FirstNearest(key, init, i) && Distance(key, init[i]) <= Distance(key, last)
    ensures FirstNearest(key, init + [last], i)
  {
    assert (init + [last])[i] == init[i];
  }

  /** One more candidate, nearer than the first nearest one, takes its place. */
  lemma LastIsNearer(key: string, init: seq<string>, last: string, i: nat)
    requires FirstNearest(key, init, i) && Distance(key, last) < Distance(key, init[i])
    ensures FirstNearest(key, init + [last], |init|)
  {
    var d := Distance(key, last);
    assert forall j :: 0 <= j < |init| ==> d < Distance(key, init[j]);
    assert forall j :: 0 <= j < |init| ==> (init + [last])[j] == init[j];
  }

  /** The only candidate within reach is the first nearest one. */
  lemma LastIsOnlyOne(key: string, init: seq<string>, last: string)
    requires NearEnough(key, last) && forall j :: 0 <= j < |init| ==> !NearEnough(key, init[j])
    ensures FirstNearest(key, init + [last], |init|)
  {
    assert forall j :: 0 <= j < |init| ==> (init + [last])[j] == init[j];
  }

  lemma ClosestStep(key: string, init: seq<string>, last: string)
    ensures Closest(key, init + [last]) ==
            if !NearEnough(key, last) then Closest(key, init)
            else if Closest(key, init).Some? && Distance(key, Closest(key, init).value) <= Distance(key, last)
            then Closest(key, init)
            else Some(last)
  {
    ReachIsMaxDistance(key, last);
    assert (init + [last])[..|init|] == init;
  }

  /** What `Closest` finds among the candidates, with its place. */
  ghost predicate IsNearest(key: string, candidates: seq<string>, found: Option<string>) {
    if found.None? then forall j :: 0 <= j < |candidates| ==> !NearEnough(key, candidates[j])
    else exists i: nat :: FirstNearest(key, candidates, i) && candidates[i] == found.value
  }

  lemma NearestStep(key: string, init: seq<string>, last: string)
    requires IsNearest(key, init, Closest(key, init))
    ensures IsNearest(key, init + [last], Closest(key, init + [last]))
  {
    ClosestStep(key, init, last);
    if Closest(key, init).Some? {
      var i: nat :| FirstNearest(key, init, i) && init[i] == Closest(key, init).value;
      if Distance(key, init[i]) <= Distance(key, last) {
        FirstNearestStays(key, init, last, i);
      } else {
        LastIsNearer(key, init, last, i);
      }
    } else if NearEnough(key, last) {
      LastIsOnlyOne(key, init, last);
    }
  }

  lemma {:induction false} ClosestIsThere(key: string, candidates: seq<string>)
    ensures IsNearest(key, candidates, Closest(key, candidates))
  {
    if candidates != [] {
      var init, last := candidates[..|candidates| - 1], candidates[|candidates| - 1];
      ClosestIsThere(key, init);
      NearestStep(key, init, last);
      assert candidates == init + [last];
    }
  }

  /**
   * A suggestion is the earliest of the candidates within reach that no candidate beats;
   * there is none exactly when every candidate is out of reach.
   */
  lemma ClosestIsNearest(key: string, candidates: seq<string>)
    ensures Closest(key, candidates).None? <==> forall c :: c in candidates ==> !NearEnough(key, c)
    ensures Closest(key, candidates).Some? ==>
              exists i: nat :: FirstNearest(key, candidates, i) && candidates[i] == Closest(key, candidates).value
  {
    ClosestIsThere(key, candidates);
    if Closest(key, candidates).Some? {
      var i: nat :| FirstNearest(key, candidates, i) && candidates[i] == Closest(key, candidates).value;
      assert candidates[i] in candidates;
    }
  }

  /** A key that is itself a candidate is its own suggestion. */
  lemma ClosestOfKnownKey(key: string, candidates: seq<string>)
    requires key in candidates
    ensures Closest(key, candidates) == Some(key)
  {
    var k :| 0 <= k < |candidates| && candidates[k] == key;
    DistanceIsMetric(key, key, key);
    assert NearEnough(key, candidates[k]);
    ClosestIsNearest(key, candidates);
    var found := Closest(key, candidates).value;
    var i: nat :| FirstNearest(key, candidates, i) && candidates[i] == found;
    DistanceIsMetric(key, found, key);
  }
}
