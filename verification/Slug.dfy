/** Sandbox names: the rule they obey, the slug suggested for text that breaks it, and its disambiguation. */
module Slug {
  import opened Characters
  import opened Sequences
  import Fingerprint

  const MAX_LEN := 32

  // ----- The rule -----

  predicate IsNameChar(c: char) {
    'a' <= c <= 'z' || '0' <= c <= '9'
  }

  /** `[a-z0-9][a-z0-9-]{0,31}` */
  predicate IsValidName(name: string) {
    && name != "" && |name| <= MAX_LEN
    && IsNameChar(name[0])
    && forall i :: 0 <= i < |name| ==> IsNameChar(name[i]) || name[i] == '-'
  }

  /** A valid name without doubled or trailing dashes. */
  predicate IsCanonical(name: string) {
    && IsValidName(name)
    && name[|name| - 1] != '-'
    && forall i :: 0 <= i < |name| - 1 ==> !(name[i] == '-' && name[i + 1] == '-')
  }

  predicate IsNameTail(c: char) {
    'a' <= c <= 'z' || '0' <= c <= '9' || c == '-'
  }

  /** The rule as it is written: a small letter or digit, then at most 31 small letters, digits and dashes. */
  lemma NameRule(name: string)
    ensures IsValidName(name)
       <==> exists first, rest ::
              && name == [first] + rest && ('a' <= first <= 'z' || '0' <= first <= '9')
              && |rest| <= 31 && forall k :: 0 <= k < |rest| ==> IsNameTail(rest[k])
  {
    if IsValidName(name) {
      var first, rest := name[0], name[1..];
      assert name == [first] + rest;
      assert forall k :: 0 <= k < |rest| ==> rest[k] == name[k + 1];
    }
  }

  // ----- The slug -----

  function EndsWithDash(s: string): bool {
    s != "" && s[|s| - 1] == '-'
  }

  function PushChar(slug: string, c: char): string {
    var lower := ToAsciiLowercase(c);
    if IsNameChar(lower) then slug + [lower]
    else if !EndsWithDash(slug) && slug != "" then slug + "-"
    else slug
  }

  function PushAll(slug: string, name: string): string
    decreases |name|
  {
    if name == "" then slug else PushAll(PushChar(slug, name[0]), name[1..])
  }

  function TrimDashes(s: string): string {
    if EndsWithDash(s) then TrimDashes(s[..|s| - 1]) else s
  }

  function Truncate(s: string): string {
    if |s| > MAX_LEN then s[..MAX_LEN] else s
  }

  function SlugOf(name: string): string {
    var slug := TrimDashes(Truncate(TrimDashes(PushAll("", name))));
    if slug == "" then "sandbox" else slug
  }

  method Slugify(name: string) returns (slug: string)
    ensures slug == SlugOf(name)
  {
    slug := "";
    for i := 0 to |name|
      invariant PushAll(slug, name[i..]) == PushAll("", name)
    {
      var lower := ToAsciiLowercase(name[i]);
      assert name[i..][1..] == name[i + 1..];
      if IsNameChar(lower) {
        slug := slug + [lower];
      } else if !EndsWithDash(slug) && slug != "" {
        slug := slug + "-";
      }
    }
    while EndsWithDash(slug)
      invariant TrimDashes(slug) == TrimDashes(PushAll("", name))
      decreases |slug|
    {
      slug := slug[..|slug| - 1];
    }
    if |slug| > MAX_LEN {
      slug := slug[..MAX_LEN];
    }
    while EndsWithDash(slug)
      invariant TrimDashes(slug) == TrimDashes(Truncate(TrimDashes(PushAll("", name))))
      decreases |slug|
    {
      slug := slug[..|slug| - 1];
    }
    if slug == "" {
      slug := "sandbox";
    }
  }

  // ----- Slugs are canonical, and canonical names are their own slugs -----

  /** What the slug under construction always satisfies, whatever its length. */
  predicate IsDraft(s: string) {
    && (s != "" ==> IsNameChar(s[0]))
    && (forall i :: 0 <= i < |s| ==> IsNameChar(s[i]) || s[i] == '-')
    && (forall i :: 0 <= i < |s| - 1 ==> !(s[i] == '-' && s[i + 1] == '-'))
  }

  lemma {:induction false} PushAllDrafts(slug: string, name: string)
    requires IsDraft(slug)
    ensures IsDraft(PushAll(slug, name))
    decreases |name|
  {
    if name != "" {
      PushAllDrafts(PushChar(slug, name[0]), name[1..]);
    }
  }

  lemma {:induction false} TrimDashesDrafts(s: string)
    requires IsDraft(s)
    ensures IsDraft(TrimDashes(s)) && TrimDashes(s) <= s && !EndsWithDash(TrimDashes(s))
  {
    if EndsWithDash(s) {
      TrimDashesDrafts(s[..|s| - 1]);
    }
  }

  /** A canonical name is pushed unchanged onto any draft it continues. */
  lemma {:induction false} PushAllKeeps(slug: string, name: string)
    requires IsDraft(slug + name)
    ensures PushAll(slug, name) == slug + name
    decreases |name|
  {
    if name == "" {
      assert slug + name == slug;
    } else {
      var next := slug + [name[0]];
      assert next + name[1..] == slug + name;
      assert (slug + name)[|slug|] == name[0];
      assert slug != "" ==> (slug + name)[|slug| - 1] == slug[|slug| - 1];
      assert PushChar(slug, name[0]) == next;
      PushAllKeeps(next, name[1..]);
    }
  }

  lemma TruncateDrafts(s: string)
    requires IsDraft(s)
    ensures IsDraft(Truncate(s)) && |Truncate(s)| <= MAX_LEN
  {
  }

  lemma DraftIsCanonical(s: string)
    requires IsDraft(s) && s != "" && |s| <= MAX_LEN && !EndsWithDash(s)
    ensures IsCanonical(s)
  {
  }

  lemma SandboxIsCanonical()
    ensures IsCanonical("sandbox")
  {
  }

  lemma SlugIsCanonical(name: string)
    ensures IsCanonical(SlugOf(name))
  {
    var pushed := PushAll("", name);
    PushAllDrafts("", name);
    TrimDashesDrafts(pushed);
    TruncateDrafts(TrimDashes(pushed));
    TrimDashesDrafts(Truncate(TrimDashes(pushed)));
    var slug := TrimDashes(Truncate(TrimDashes(pushed)));
    if slug == "" {
      SandboxIsCanonical();
    } else {
      DraftIsCanonical(slug);
    }
  }

  /** The slug is a valid name for every input, and the fixed points are exactly the canonical names. */
  lemma SlugFixedPoints(name: string)
    ensures IsValidName(SlugOf(name))
    ensures SlugOf(name) == name <==> IsCanonical(name)
  {
    SlugIsCanonical(name);
    if IsCanonical(name) {
      assert "" + name == name;
      PushAllKeeps("", name);
    }
  }

  lemma SlugIsIdempotent(name: string)
    ensures SlugOf(SlugOf(name)) == SlugOf(name)
  {
    SlugIsCanonical(name);
    SlugFixedPoints(SlugOf(name));
  }

  // ----- Disambiguation by a hash suffix -----

  function CutTo(s: string, length: nat): string {
    if |s| > length then s[..length] else s
  }

  /** The name for a project whose slug is already taken; `hash` is the low 24 bits of the root's hash. */
  function Disambiguated(base: string, hash: nat): string
    requires hash < 0x1000000
  {
    var suffix := Fingerprint.Hex(hash, 6);
    TrimDashes(CutTo(base, 32 - 1 - |suffix|)) + "-" + suffix
  }

  lemma {:induction false} HexIsNameText(n: nat, width: nat)
    ensures forall i :: 0 <= i < width ==> IsNameChar(Fingerprint.Hex(n, width)[i])
  {
    if width > 0 {
      HexIsNameText(n / 16, width - 1);
    }
  }

  lemma {:induction false} TrimDashesKeepsFirst(s: string)
    requires s != "" && s[0] != '-'
    ensures TrimDashes(s) <= s && TrimDashes(s) != "" && !EndsWithDash(TrimDashes(s))
  {
    if EndsWithDash(s) {
      TrimDashesKeepsFirst(s[..|s| - 1]);
    }
  }

  /** A disambiguated valid name is valid, and a disambiguated slug is again canonical. */
  lemma DisambiguatedIsValid(base: string, hash: nat)
    requires IsValidName(base) && hash < 0x1000000
    ensures IsValidName(Disambiguated(base, hash))
    ensures IsCanonical(base) ==> IsCanonical(Disambiguated(base, hash))
  {
    HexIsNameText(hash, 6);
    var cut := CutTo(base, 25);
    TrimDashesKeepsFirst(cut);
    var trimmed, suffix := TrimDashes(cut), Fingerprint.Hex(hash, 6);
    assert trimmed <= base;
    var name := trimmed + "-" + suffix;
    assert forall i :: 0 <= i < |trimmed| ==> name[i] == base[i];
    assert forall i :: |trimmed| < i < |name| ==> name[i] == suffix[i - |trimmed| - 1];
  }

  /**
   * A disambiguated name is as much of the taken one as fits, less its dashes at the end, then a dash and the hash:
   * only dashes are left out before the cut, and two hashes never give one name.
   */
  lemma DisambiguatedKeeps(base: string, hash: nat) returns (kept: string)
    requires hash < 0x1000000
    ensures Disambiguated(base, hash) == kept + "-" + Fingerprint.Hex(hash, 6)
    ensures kept <= base && |kept| <= 25 && !EndsWithDash(kept)
    ensures forall k :: |kept| <= k < |base| && k < 25 ==> base[k] == '-'
  {
    kept := TrimDashes(CutTo(base, 25));
    TrimmedAreDashes(CutTo(base, 25));
  }

  lemma DisambiguatedDiffers(base: string, hash: nat, other: nat)
    requires hash < 0x1000000 && other < 0x1000000 && hash != other
    ensures Disambiguated(base, hash) != Disambiguated(base, other)
  {
    assert Fingerprint.Pow2(4 * 6) == 0x1000000 by {
      Fingerprint.PowerDoubles(12, 12);
      Fingerprint.PowerDoubles(6, 6);
    }
    Fingerprint.HexIsInjective(hash, other, 6);
    var front := TrimDashes(CutTo(base, 25)) + "-";
    assert Disambiguated(base, hash)[|front|..] == Fingerprint.Hex(hash, 6);
    assert Disambiguated(base, other)[|front|..] == Fingerprint.Hex(other, 6);
  }

  lemma {:induction false} TrimmedAreDashes(s: string)
    ensures TrimDashes(s) <= s && !EndsWithDash(TrimDashes(s))
    ensures forall k :: |TrimDashes(s)| <= k < |s| ==> s[k] == '-'
  {
    if EndsWithDash(s) {
      TrimmedAreDashes(s[..|s| - 1]);
    }
  }

  // ----- The slug is the words of the text, in order, with one dash between them -----

  /** Letters and digits, and what stands before them. */
  datatype Word = Word(gap: string, letters: string)

  /** A character that survives: a letter of either case, or a digit. */
  predicate IsLetter(c: char) {
    'a' <= c <= 'z' || 'A' <= c <= 'Z' || '0' <= c <= '9'
  }

  predicate IsGap(s: string) {
    forall k :: 0 <= k < |s| ==> !IsLetter(s[k])
  }

  predicate AreLetters(s: string) {
    s != "" && forall k :: 0 <= k < |s| ==> IsLetter(s[k])
  }

  /** Words with something between any two of them. */
  predicate AreWords(words: seq<Word>) {
    forall i :: 0 <= i < |words| ==>
      AreLetters(words[i].letters) && IsGap(words[i].gap) && (i > 0 ==> words[i].gap != "")
  }

  function Spelled(words: seq<Word>): string {
    if words == [] then ""
    else Spelled(words[..|words| - 1]) + (words[|words| - 1].gap + words[|words| - 1].letters)
  }

  /** The letters in lower case, and every other character as it is. */
  predicate IsLowered(s: string, lower: string) {
    && |lower| == |s|
    && forall k :: 0 <= k < |s| ==>
         lower[k] as int == if 'A' <= s[k] <= 'Z' then s[k] as int + 32 else s[k] as int
  }

  function Lowered(s: string): (lower: string)
    ensures IsLowered(s, lower)
  {
    if s == "" then "" else Lowered(s[..|s| - 1]) + [ToAsciiLowercase(s[|s| - 1])]
  }

  function Dashed(words: seq<Word>): string {
    if words == [] then ""
    else
      Dashed(words[..|words| - 1]) + (if |words| > 1 then "-" else "") + Lowered(words[|words| - 1].letters)
  }

  lemma LetterIsNameChar(c: char)
    ensures IsLetter(c) <==> IsNameChar(ToAsciiLowercase(c))
  {
  }

  lemma {:induction false} PushAllConcat(slug: string, a: string, b: string)
    ensures PushAll(slug, a + b) == PushAll(PushAll(slug, a), b)
    decreases |a|
  {
    if a == "" {
      assert a + b == b;
    } else {
      assert (a + b)[1..] == a[1..] + b;
      PushAllConcat(PushChar(slug, a[0]), a[1..], b);
    }
  }

  lemma PushOne(slug: string, c: char)
    ensures PushAll(slug, [c]) == PushChar(slug, c)
  {
    assert [c][1..] == "";
  }

  lemma PushLetter(slug: string, c: char)
    requires IsLetter(c)
    ensures PushAll(slug, [c]) == slug + [ToAsciiLowercase(c)]
  {
    PushOne(slug, c);
    LetterIsNameChar(c);
  }

  lemma LoweredOfOneMore(s: string, c: char)
    ensures Lowered(s + [c]) == Lowered(s) + [ToAsciiLowercase(c)]
  {
    assert (s + [c])[..|s|] == s;
  }

  lemma {:induction false} PushLetters(slug: string, letters: string)
    requires forall k :: 0 <= k < |letters| ==> IsLetter(letters[k])
    ensures PushAll(slug, letters) == slug + Lowered(letters)
  {
    if letters == "" {
      assert slug + "" == slug;
    } else {
      var init, last := letters[..|letters| - 1], letters[|letters| - 1];
      PushLetters(slug, init);
      assert letters == init + [last];
      PushAllConcat(slug, init, [last]);
      PushLetter(PushAll(slug, init), last);
      LoweredOfOneMore(init, last);
      Regroup(slug, Lowered(init), [ToAsciiLowercase(last)]);
    }
  }

  lemma {:induction false} PushGap(slug: string, gap: string)
    requires IsGap(gap)
    ensures PushAll(slug, gap)
         == if slug == "" || gap == "" || EndsWithDash(slug) then slug else slug + "-"
  {
    if gap != "" {
      var init, last := gap[..|gap| - 1], gap[|gap| - 1];
      PushGap(slug, init);
      assert gap == init + [last];
      PushAllConcat(slug, init, [last]);
      PushOne(PushAll(slug, init), last);
      LetterIsNameChar(last);
    }
  }

  lemma DashedEndsInLetter(words: seq<Word>)
    requires AreWords(words) && words != []
    ensures Dashed(words) != "" && !EndsWithDash(Dashed(words))
  {
    var letters := words[|words| - 1].letters;
    var lower := Lowered(letters);
    assert IsLetter(letters[|letters| - 1]);
    assert Dashed(words)[|Dashed(words)| - 1] == lower[|lower| - 1];
  }

  lemma PushWord(slug: string, word: Word)
    requires IsGap(word.gap) && AreLetters(word.letters) && !EndsWithDash(slug) && (slug != "" ==> word.gap != "")
    ensures PushAll(slug, word.gap + word.letters) == slug + (if slug != "" then "-" else "") + Lowered(word.letters)
  {
    PushAllConcat(slug, word.gap, word.letters);
    PushGap(slug, word.gap);
    PushLetters(PushAll(slug, word.gap), word.letters);
    assert slug + "" == slug;
  }

  lemma {:induction false} PushWords(words: seq<Word>)
    requires AreWords(words)
    ensures PushAll("", Spelled(words)) == Dashed(words)
  {
    if words != [] {
      var init, last := words[..|words| - 1], words[|words| - 1];
      PushWords(init);
      PushAllConcat("", Spelled(init), last.gap + last.letters);
      if init != [] {
        DashedEndsInLetter(init);
      }
      PushWord(Dashed(init), last);
    }
  }

  /** What is left of the words when they are cut: all of them, or 32 characters, or 31 where a dash would end it. */
  function Cut(joined: string): string {
    if |joined| <= 32 then joined else if joined[31] == '-' then joined[..31] else joined[..32]
  }

  lemma CutIsTrimmed(joined: string)
    requires IsDraft(joined) && !EndsWithDash(joined)
    ensures TrimDashes(Truncate(joined)) == Cut(joined)
  {
    if |joined| > 32 && joined[31] == '-' {
      assert joined[30] != '-';
      var cut := joined[..32];
      assert cut[..31] == joined[..31];
    }
  }

  lemma TrimLastDash(s: string)
    requires !EndsWithDash(s)
    ensures TrimDashes(s + "-") == s
  {
    assert (s + "-")[..|s|] == s;
  }

  /**
   * The slug of a text made of words and gaps between them: the words in order, in lower case, with one dash for
   * each gap between two of them and none for what comes before the first or after the last, cut to 32 characters.
   */
  lemma SlugOfWords(words: seq<Word>, rest: string)
    requires AreWords(words) && IsGap(rest)
    ensures SlugOf(Spelled(words) + rest) == if words == [] then "sandbox" else Cut(Dashed(words))
  {
    PushWords(words);
    PushAllConcat("", Spelled(words), rest);
    PushGap(Dashed(words), rest);
    PushAllDrafts("", Spelled(words));
    if words != [] {
      DashedEndsInLetter(words);
      TrimLastDash(Dashed(words));
      CutIsTrimmed(Dashed(words));
      assert Cut(Dashed(words)) != "";
    }
  }

  /** And every text is made of words and gaps in that way. */
  lemma {:induction false} EveryTextHasWords(name: string) returns (words: seq<Word>, rest: string)
    ensures AreWords(words) && IsGap(rest) && name == Spelled(words) + rest
  {
    if name == "" {
      words, rest := [], "";
    } else {
      var init, last := name[..|name| - 1], name[|name| - 1];
      assert name == init + [last];
      words, rest := EveryTextHasWords(init);
      if !IsLetter(last) {
        rest := rest + [last];
      } else if words != [] && rest == "" {
        words := LongerWord(words, last);
        rest := "";
      } else {
        words := OneMoreWord(words, Word(rest, [last]));
        rest := "";
      }
    }
  }

  lemma OneMoreWord(words: seq<Word>, word: Word) returns (more: seq<Word>)
    requires AreWords(words) && AreLetters(word.letters) && IsGap(word.gap) && (words != [] ==> word.gap != "")
    ensures AreWords(more) && Spelled(more) == Spelled(words) + (word.gap + word.letters)
  {
    more := words + [word];
    assert more[..|words|] == words;
  }

  lemma LongerWord(words: seq<Word>, c: char) returns (more: seq<Word>)
    requires AreWords(words) && words != [] && IsLetter(c)
    ensures AreWords(more) && Spelled(more) == Spelled(words) + [c]
  {
    var init, last := words[..|words| - 1], words[|words| - 1];
    more := OneMoreWord(init, Word(last.gap, last.letters + [c]));
  }
}
