/** The JSONC preprocessor for `devbox.json`: two scans that drop comments and trailing commas. */
module Jsonc {
  import opened Characters

  // ----- First scan: comments -----

  /** Where the scanner is; `BlockOpen` has seen the `/` of a block comment and is about to read its `*`. */
  datatype Mode = Code | InString(escaped: bool) | LineComment | BlockOpen | BlockComment(prev: char)

  function StringStep(escaped: bool, c: char): Mode {
    if escaped then InString(false)
    else if c == '\\' then InString(true)
    else if c == '"' then Code
    else InString(false)
  }

  function CommentStep(mode: Mode, c: char, rest: string): Mode {
    match mode
    case InString(escaped) => StringStep(escaped, c)
    case Code =>
      if c == '"' then InString(false)
      else if c == '/' && rest != "" && rest[0] == '/' then LineComment
      else if c == '/' && rest != "" && rest[0] == '*' then BlockOpen
      else Code
    case LineComment => if c == '\n' then Code else LineComment
    case BlockOpen => BlockComment('\0')
    case BlockComment(prev) => if prev == '*' && c == '/' then Code else BlockComment(c)
  }

  /** Whether the character read in this mode is copied to the output. */
  predicate CommentKeeps(mode: Mode, c: char, rest: string) {
    match mode
    case InString(_) => true
    case Code => CommentStep(mode, c, rest) in {Code, InString(false)}
    case _ => c == '\n'
  }

  function WithoutComments(mode: Mode, text: string): string
    decreases |text|
  {
    if text == "" then ""
    else
      var c, rest := text[0], text[1..];
      (if CommentKeeps(mode, c, rest) then [c] else "") + WithoutComments(CommentStep(mode, c, rest), rest)
  }

  /** One character of the scan, with what has been written so far in front. */
  lemma CommentAdvance(out: string, mode: Mode, text: string, i: nat)
    requires i < |text|
    ensures var c, rest := text[i], text[i + 1..];
            out + WithoutComments(mode, text[i..])
            == (if CommentKeeps(mode, c, rest) then out + [c] else out)
               + WithoutComments(CommentStep(mode, c, rest), rest)
  {
    var c, rest := text[i], text[i + 1..];
    assert text[i..][1..] == rest;
    var tail := WithoutComments(CommentStep(mode, c, rest), rest);
    assert (out + [c]) + tail == out + ([c] + tail);
    assert "" + tail == tail;
  }

  method StripComments(text: string) returns (out: string)
    ensures out == WithoutComments(Code, text)
  {
    out := "";
    var inString, escaped := false, false;
    var i := 0;
    assert text[0..] == text;
    while i < |text|
      invariant i <= |text|
      invariant escaped ==> inString
      invariant out + WithoutComments(if inString then InString(escaped) else Code, text[i..])
             == WithoutComments(Code, text)
    {
      var c := text[i];
      CommentAdvance(out, if inString then InString(escaped) else Code, text, i);
      i := i + 1;
      if inString {
        out := out + [c];
        if escaped {
          escaped := false;
        } else if c == '\\' {
          escaped := true;
        } else if c == '"' {
          inString := false;
        }
        continue;
      }
      if c == '"' {
        inString := true;
        out := out + [c];
      } else if c == '/' && i < |text| && text[i] == '/' {
        i, out := SkipLineComment(text, i, out);
      } else if c == '/' && i < |text| && text[i] == '*' {
        CommentAdvance(out, BlockOpen, text, i);
        i, out := SkipBlockComment(text, i + 1, out);
      } else {
        out := out + [c];
      }
    }
  }

  /** The inner loop over a line comment: reads through its newline, which is kept. */
  method SkipLineComment(text: string, start: nat, before: string) returns (i: nat, out: string)
    requires start < |text|
    ensures start < i <= |text|
    ensures out + WithoutComments(Code, text[i..]) == before + WithoutComments(LineComment, text[start..])
  {
    i, out := start, before;
    while i < |text|
      invariant start <= i <= |text|
      invariant out + WithoutComments(LineComment, text[i..]) == before + WithoutComments(LineComment, text[start..])
    {
      CommentAdvance(out, LineComment, text, i);
      i := i + 1;
      if text[i - 1] == '\n' {
        out := out + "\n";
        return;
      }
    }
  }

  /** The inner loop over the inside of a block comment: only its newlines are kept. */
  method SkipBlockComment(text: string, start: nat, before: string) returns (i: nat, out: string)
    requires start <= |text|
    ensures start <= i <= |text|
    ensures out + WithoutComments(Code, text[i..]) == before + WithoutComments(BlockComment('\0'), text[start..])
  {
    i, out := start, before;
    var prev := '\0';
    while i < |text|
      invariant start <= i <= |text|
      invariant out + WithoutComments(BlockComment(prev), text[i..])
             == before + WithoutComments(BlockComment('\0'), text[start..])
    {
      var c := text[i];
      CommentAdvance(out, BlockComment(prev), text, i);
      i := i + 1;
      if prev == '*' && c == '/' {
        return;
      }
      if c == '\n' {
        out := out + "\n";
      }
      prev := c;
    }
  }

  // ----- Second scan: trailing commas -----

  predicate IsCloser(c: char) {
    c == '}' || c == ']'
  }

  /** Whether the first character that is not whitespace is a closer. */
  predicate CloserAhead(text: string) {
    text != "" && (IsCloser(text[0]) || (IsWhitespace(text[0]) && CloserAhead(text[1..])))
  }

  function CommaStep(mode: Mode, c: char): Mode
    requires mode.Code? || mode.InString?
  {
    if mode.InString? then StringStep(mode.escaped, c) else if c == '"' then InString(false) else Code
  }

  function WithoutTrailingCommas(mode: Mode, text: string): string
    requires mode.Code? || mode.InString?
    decreases |text|
  {
    if text == "" then ""
    else
      var c, rest := text[0], text[1..];
      (if mode.Code? && c == ',' && CloserAhead(rest) then "" else [c])
      + WithoutTrailingCommas(CommaStep(mode, c), rest)
  }

  lemma CommaAdvance(out: string, mode: Mode, text: string, i: nat)
    requires mode.Code? || mode.InString?
    requires i < |text|
    ensures var c, rest := text[i], text[i + 1..];
            out + WithoutTrailingCommas(mode, text[i..])
            == (if mode.Code? && c == ',' && CloserAhead(rest) then out else out + [c])
               + WithoutTrailingCommas(CommaStep(mode, c), rest)
  {
    var c, rest := text[i], text[i + 1..];
    assert text[i..][1..] == rest;
    var tail := WithoutTrailingCommas(CommaStep(mode, c), rest);
    assert (out + [c]) + tail == out + ([c] + tail);
    assert "" + tail == tail;
  }

  method StripTrailingCommas(text: string) returns (out: string)
    ensures out == WithoutTrailingCommas(Code, text)
  {
    out := "";
    var inString, escaped := false, false;
    var i := 0;
    assert text[0..] == text;
    while i < |text|
      invariant i <= |text|
      invariant escaped ==> inString
      invariant out + WithoutTrailingCommas(if inString then InString(escaped) else Code, text[i..])
             == WithoutTrailingCommas(Code, text)
    {
      var c := text[i];
      CommaAdvance(out, if inString then InString(escaped) else Code, text, i);
      if inString {
        out := out + [c];
        if escaped {
          escaped := false;
        } else if c == '\\' {
          escaped := true;
        } else if c == '"' {
          inString := false;
        }
        i := i + 1;
        continue;
      }
      if c == '"' {
        inString := true;
        out := out + [c];
        i := i + 1;
        continue;
      }
      if c == ',' {
        var closer := LooksAtCloser(text, i + 1);
        if closer {
          i := i + 1;
          continue;
        }
      }
      out := out + [c];
      i := i + 1;
    }
  }

  /** The lookahead loop after a comma. */
  method LooksAtCloser(text: string, start: nat) returns (closer: bool)
    requires start <= |text|
    ensures closer == CloserAhead(text[start..])
  {
    var j := start;
    while j < |text| && IsWhitespace(text[j])
      invariant start <= j <= |text|
      invariant CloserAhead(text[j..]) == CloserAhead(text[start..])
    {
      assert text[j..][1..] == text[j + 1..];
      j := j + 1;
    }
    closer := j < |text| && IsCloser(text[j]);
  }

  function StripJsonc(text: string): string {
    WithoutTrailingCommas(Code, WithoutComments(Code, text))
  }
}
