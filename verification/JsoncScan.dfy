/** What the two JSONC scans keep, for any text at all: no comment is left, no line number moves. */
module JsoncScan {
  import opened Jsonc

  // ----- Fixed points: texts without comment openers -----

  /** No comment opens outside a string literal, reading from `mode`. */
  predicate OpenerFree(mode: Mode, text: string)
    requires mode.Code? || mode.InString?
    decreases |text|
  {
    text != "" ==>
      var c, rest := text[0], text[1..];
      && !(mode.Code? && c == '/' && rest != "" && (rest[0] == '/' || rest[0] == '*'))
      && OpenerFree(CommaStep(mode, c), rest)
  }

  function Resumed(mode: Mode): Mode {
    if mode.InString? then mode else Code
  }

  /** In code, the next character written is the next character read unless a comment opens there. */
  lemma NextWritten(text: string)
    requires text != "" && text[0] != '/'
    ensures WithoutComments(Code, text) != "" && WithoutComments(Code, text)[0] == text[0]
  {
  }

  lemma {:induction false} OutputIsOpenerFree(mode: Mode, text: string)
    ensures OpenerFree(Resumed(mode), WithoutComments(mode, text))
    decreases |text|
  {
    if text != "" {
      var c, rest := text[0], text[1..];
      var next := CommentStep(mode, c, rest);
      var out, tail := WithoutComments(mode, text), WithoutComments(next, rest);
      OutputIsOpenerFree(next, rest);
      if CommentKeeps(mode, c, rest) {
        assert out[1..] == tail && out[0] == c;
        if mode.Code? && c == '/' && rest != "" {
          NextWritten(rest);
        } else if mode.Code? && c == '/' {
          assert tail == "";
        }
      } else {
        assert out == tail;
      }
    }
  }

  lemma {:induction false} OpenerFreeIsKept(mode: Mode, text: string)
    requires mode.Code? || mode.InString?
    ensures OpenerFree(mode, text) ==> WithoutComments(mode, text) == text
    decreases |text|
  {
    if text != "" {
      OpenerFreeIsKept(CommaStep(mode, text[0]), text[1..]);
    }
  }

  /** The texts the first scan leaves alone are exactly those without a comment opener outside a string. */
  lemma CommentFixedPoints(text: string)
    ensures OpenerFree(Code, WithoutComments(Code, text))
    ensures WithoutComments(Code, text) == text <==> OpenerFree(Code, text)
  {
    OutputIsOpenerFree(Code, text);
    OpenerFreeIsKept(Code, text);
  }

  lemma StripCommentsIsIdempotent(text: string)
    ensures WithoutComments(Code, WithoutComments(Code, text)) == WithoutComments(Code, text)
  {
    CommentFixedPoints(text);
    CommentFixedPoints(WithoutComments(Code, text));
  }

  // ----- Line numbers -----

  function Newlines(text: string): nat {
    multiset(text)['\n']
  }

  /** `out` is what is left of `text` at the positions `at`, in order, and no newline is missing. */
  ghost predicate Thins(text: string, out: string, at: seq<nat>) {
    && |at| == |out|
    && (forall k :: 0 <= k < |at| ==> at[k] < |text| && out[k] == text[at[k]])
    && (forall j, k :: 0 <= j < k < |at| ==> at[j] < at[k])
    && (forall i :: 0 <= i < |text| && text[i] == '\n' ==> i in at)
  }

  function Shifted(at: seq<nat>): seq<nat> {
    seq(|at|, k requires 0 <= k < |at| => at[k] + 1)
  }

  lemma ThinsDrop(c: char, rest: string, out: string, at: seq<nat>)
    requires Thins(rest, out, at) && c != '\n'
    ensures Thins([c] + rest, out, Shifted(at))
  {
    var text, moved := [c] + rest, Shifted(at);
    forall i | 0 <= i < |text| && text[i] == '\n' ensures i in moved {
      assert rest[i - 1] == '\n';
      var k :| 0 <= k < |at| && at[k] == i - 1;
      assert moved[k] == i;
    }
  }

  lemma ThinsKeep(c: char, rest: string, out: string, at: seq<nat>)
    requires Thins(rest, out, at)
    ensures Thins([c] + rest, [c] + out, [0] + Shifted(at))
  {
    var text, all := [c] + rest, [0] + Shifted(at);
    assert forall k :: 1 <= k < |all| ==> all[k] == at[k - 1] + 1;
    forall k | 0 <= k < |all| ensures all[k] < |text| && ([c] + out)[k] == text[all[k]] {
      if k > 0 {
        assert text[at[k - 1] + 1] == rest[at[k - 1]];
      }
    }
    forall j, k | 0 <= j < k < |all| ensures all[j] < all[k] {
      assert j > 0 ==> at[j - 1] < at[k - 1];
    }
    forall i | 0 <= i < |text| && text[i] == '\n' ensures i in all {
      if i == 0 {
        assert all[0] == i;
      } else {
        assert rest[i - 1] == '\n';
        var k :| 0 <= k < |at| && at[k] == i - 1;
        assert all[k + 1] == i;
      }
    }
  }

  lemma {:induction false} CommentsThin(mode: Mode, text: string) returns (at: seq<nat>)
    ensures Thins(text, WithoutComments(mode, text), at)
    decreases |text|
  {
    if text == "" {
      at := [];
    } else {
      var c, rest := text[0], text[1..];
      var next := CommentStep(mode, c, rest);
      var keep := CommentKeeps(mode, c, rest);
      var later := CommentsThin(next, rest);
      var tail := WithoutComments(next, rest);
      assert text == [c] + rest;
      if keep {
        ThinsKeep(c, rest, tail, later);
        at := [0] + Shifted(later);
      } else {
        ThinsDrop(c, rest, tail, later);
        at := Shifted(later);
        assert WithoutComments(mode, text) == tail;
      }
    }
  }

  lemma {:induction false} CommasThin(mode: Mode, text: string) returns (at: seq<nat>)
    requires mode.Code? || mode.InString?
    ensures Thins(text, WithoutTrailingCommas(mode, text), at)
    decreases |text|
  {
    if text == "" {
      at := [];
    } else {
      var c, rest := text[0], text[1..];
      var next := CommaStep(mode, c);
      var keep := !(mode.Code? && c == ',' && CloserAhead(rest));
      var later := CommasThin(next, rest);
      var tail := WithoutTrailingCommas(next, rest);
      assert text == [c] + rest;
      if keep {
        ThinsKeep(c, rest, tail, later);
        at := [0] + Shifted(later);
      } else {
        ThinsDrop(c, rest, tail, later);
        at := Shifted(later);
        assert WithoutTrailingCommas(mode, text) == tail;
      }
    }
  }

  /** Thinning twice is thinning once. */
  lemma ThinsTwice(text: string, middle: string, out: string, first: seq<nat>, second: seq<nat>) returns (at: seq<nat>)
    requires Thins(text, middle, first) && Thins(middle, out, second)
    ensures Thins(text, out, at)
  {
    at := seq(|second|, k requires 0 <= k < |second| => first[second[k]]);
    forall i | 0 <= i < |text| && text[i] == '\n' ensures i in at {
      var j :| 0 <= j < |first| && first[j] == i;
      var k :| 0 <= k < |second| && second[k] == j;
      assert at[k] == i;
    }
  }

  /** Newlines up to a character, at it, and behind it. */
  lemma NewlinesThrough(text: string, p: nat, stop: nat)
    requires p < stop <= |text|
    ensures Newlines(text[..stop]) == Newlines(text[..p]) + Newlines([text[p]]) + Newlines(text[p + 1..stop])
  {
    assert text[..stop] == text[..p] + [text[p]] + text[p + 1..stop];
  }

  /** A character that survives has as many newlines before it as it had. */
  lemma {:induction false} ThinsKeepsLines(text: string, out: string, at: seq<nat>, k: nat)
    requires Thins(text, out, at) && k <= |at|
    ensures Newlines(out[..k]) == Newlines(text[..StopAt(text, at, k)])
    decreases k
  {
    if k == 0 {
      NoNewlines(text, 0, StopAt(text, at, 0), at, 0);
      assert text[..0] == "" && text[0..StopAt(text, at, 0)] == text[..StopAt(text, at, 0)];
    } else {
      ThinsKeepsLines(text, out, at, k - 1);
      OneMoreSurvivor(text, out, at, k);
    }
  }

  /** Where survivor `k` stood, or the end of the text behind the last one. */
  function StopAt(text: string, at: seq<nat>, k: nat): nat {
    if k < |at| then at[k] else |text|
  }

  lemma OneMoreSurvivor(text: string, out: string, at: seq<nat>, k: nat)
    requires Thins(text, out, at) && 0 < k <= |at|
    ensures Newlines(out[..k]) - Newlines(out[..k - 1])
         == Newlines(text[..StopAt(text, at, k)]) - Newlines(text[..StopAt(text, at, k - 1)])
  {
    var p := at[k - 1];
    NewlinesThrough(out, k - 1, k);
    NewlinesThrough(text, p, StopAt(text, at, k));
    NoNewlines(text, p + 1, StopAt(text, at, k), at, k);
    assert out[k - 1] == text[p] && out[k..k] == "";
  }

  /** Between two neighbouring survivors there is no newline. */
  lemma NoNewlines(text: string, from: nat, to: nat, at: seq<nat>, k: nat)
    requires forall i :: 0 <= i < |text| && text[i] == '\n' ==> i in at
    requires forall j :: 0 <= j < |at| ==> at[j] < |text|
    requires forall j, l :: 0 <= j < l < |at| ==> at[j] < at[l]
    requires k <= |at| && from <= to && to == if k < |at| then at[k] else |text|
    requires forall j :: 0 <= j < k ==> at[j] < from
    ensures Newlines(text[from..to]) == 0
  {
    assert forall j :: 0 <= j < |at| ==> at[j] < from || to <= at[j];
    assert forall i :: from <= i < to ==> text[i] != '\n';
    assert '\n' !in text[from..to];
  }

  /** Every character of the stripped text is a character of the user's file, on the line it had there. */
  lemma LinesAreKept(text: string) returns (at: seq<nat>)
    ensures |at| == |StripJsonc(text)|
    ensures forall j, k :: 0 <= j < k < |at| ==> at[j] < at[k]
    ensures forall k :: 0 <= k < |at| ==> at[k] < |text| && StripJsonc(text)[k] == text[at[k]]
    ensures forall k :: 0 <= k < |at| ==> Newlines(StripJsonc(text)[..k]) == Newlines(text[..at[k]])
    ensures Newlines(StripJsonc(text)) == Newlines(text)
  {
    var middle, out := WithoutComments(Code, text), StripJsonc(text);
    var first := CommentsThin(Code, text);
    var second := CommasThin(Code, middle);
    at := ThinsTwice(text, middle, out, first, second);
    forall k | 0 <= k <= |at| ensures Newlines(out[..k]) == Newlines(text[..StopAt(text, at, k)]) {
      ThinsKeepsLines(text, out, at, k);
    }
    assert out[..|at|] == out && text[..|text|] == text;
  }
}
