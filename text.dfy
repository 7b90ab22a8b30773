/**
 * The handful of Python `str` operations the pipeline relies on, written out over `seq<char>`:
 * `isspace`, `lower`, `in`, `split()`, `sep.join`, `split(c)` and `rsplit(c, 1)`.
 */
module Text {
  import opened Wrappers

  /** Python's `str.isspace()`: the characters `str.split()` with no argument splits on. */
  predicate IsSpace(c: char) {
    var n := c as int;
    n == 0x20 || 0x09 <= n <= 0x0D || 0x1C <= n <= 0x1F || n == 0x85 || n == 0xA0 || n == 0x1680
    || 0x2000 <= n <= 0x200A || n == 0x2028 || n == 0x2029 || n == 0x202F || n == 0x205F || n == 0x3000
  }

  predicate AllSpace(s: string) {
    forall i :: 0 <= i < |s| ==> IsSpace(s[i])
  }

  predicate NoSpace(s: string) {
    forall i :: 0 <= i < |s| ==> !IsSpace(s[i])
  }

  function LowerChar(c: char): char {
    if 'A' <= c <= 'Z' then (c as int + 32) as char else c
  }

  /** `s.lower()`, on the ASCII letters. */
  function Lower(s: string): string {
    seq(|s|, i requires 0 <= i < |s| => LowerChar(s[i]))
  }

  /** `sub` stands in `s` starting at index `i`. */
  predicate OccursAt(sub: string, s: string, i: int) {
    0 <= i && i + |sub| <= |s| && s[i..i + |sub|] == sub
  }

  /** Python's `sub in s`, computed by trying each start position in turn. */
  function Contains(s: string, sub: string): bool
    decreases |s|
  {
    if |sub| > |s| then false
    else if s[..|sub|] == sub then true
    else Contains(s[1..], sub)
  }

  lemma {:induction false} ContainsIff(s: string, sub: string)
    ensures Contains(s, sub) <==> exists i :: OccursAt(sub, s, i)
    decreases |s|
  {
    if |sub| > |s| {
    } else if s[..|sub|] == sub {
      assert OccursAt(sub, s, 0);
    } else {
      ContainsIff(s[1..], sub);
      if i :| OccursAt(sub, s, i) {
        assert i != 0;
        assert s[1..][i - 1..i - 1 + |sub|] == s[i..i + |sub|];
        assert OccursAt(sub, s[1..], i - 1);
      }
      if j :| OccursAt(sub, s[1..], j) {
        assert s[1..][j..j + |sub|] == s[j + 1..j + 1 + |sub|];
        assert OccursAt(sub, s, j + 1);
      }
    }
  }

  /** The longest prefix of `s` without whitespace. */
  function TakeToken(s: string): (t: string)
    ensures |t| <= |s| && t == s[..|t|]
    ensures NoSpace(t)
    ensures |t| < |s| ==> IsSpace(s[|t|])
  {
    if s == [] || IsSpace(s[0]) then [] else [s[0]] + TakeToken(s[1..])
  }

  /**
   * `s.split()[0]`: the first whitespace-delimited token. `None` stands for the `IndexError`
   * Python raises when `s` is empty or blank.
   */
  function FirstToken(s: string): (r: Option<string>)
    ensures r.None? <==> AllSpace(s)
    ensures r.Some? ==> r.value != [] && NoSpace(r.value)
  {
    if s == [] then None
    else if IsSpace(s[0]) then
      assert forall i :: 1 <= i < |s| ==> s[i] == s[1..][i - 1];
      FirstToken(s[1..])
    else Some(TakeToken(s))
  }

  /** Leading whitespace is skipped, and the token ends at the first whitespace after it. */
  lemma {:induction false} FirstTokenOfWords(lead: string, word: string, rest: string)
    requires AllSpace(lead) && word != [] && NoSpace(word)
    requires rest == [] || IsSpace(rest[0])
    ensures FirstToken(lead + word + rest) == Some(word)
    decreases |lead|
  {
    if lead == [] {
      assert lead + word + rest == word + rest;
      TakeTokenOfWord(word, rest);
    } else {
      assert (lead + word + rest)[1..] == lead[1..] + word + rest;
      FirstTokenOfWords(lead[1..], word, rest);
    }
  }

  lemma {:induction false} TakeTokenOfWord(word: string, rest: string)
    requires NoSpace(word)
    requires rest == [] || IsSpace(rest[0])
    ensures TakeToken(word + rest) == word
    decreases |word|
  {
    if word != [] {
      assert (word + rest)[1..] == word[1..] + rest;
      TakeTokenOfWord(word[1..], rest);
    } else {
      assert word + rest == rest;
    }
  }

  /** `sep.join(parts)`. */
  function Join(parts: seq<string>, sep: string): string {
    if |parts| == 0 then ""
    else if |parts| == 1 then parts[0]
    else parts[0] + sep + Join(parts[1..], sep)
  }

  /** `s.split(c)` for a one-character separator: never empty, `""` gives `[""]`. */
  function Split(s: string, c: char): (r: seq<string>)
    ensures |r| >= 1
  {
    if s == [] then [""]
    else
      var rest := Split(s[1..], c);
      if s[0] == c then [""] + rest
      else [[s[0]] + rest[0]] + rest[1..]
  }

  /**
   * `s.rsplit(c, 1)[-1]`: the longest suffix of `s` free of `c`, which is all of `s`
   * when `c` does not occur in it.
   */
  function AfterLast(s: string, c: char): string {
    if s == [] then ""
    else if s[|s| - 1] == c then ""
    else AfterLast(s[..|s| - 1], c) + [s[|s| - 1]]
  }

  /** `r` is the `c`-free end of `s` that is all of `s` or starts right after a `c`. */
  predicate TailAfterLast(s: string, c: char, r: string) {
    |r| <= |s| && r == s[|s| - |r|..] && c !in r && (|r| < |s| ==> s[|s| - |r| - 1] == c)
  }

  /** The text after the last `c` is that tail. */
  lemma {:induction false} AfterLastShape(s: string, c: char)
    ensures TailAfterLast(s, c, AfterLast(s, c))
  {
    if s != [] && s[|s| - 1] != c {
      AfterLastShape(s[..|s| - 1], c);
      TailGrows(s, c, AfterLast(s[..|s| - 1], c));
    }
  }

  /** A tail of `s` without its last character, followed by that (non-`c`) character, is a tail of `s`. */
  lemma TailGrows(s: string, c: char, r: string)
    requires s != [] && s[|s| - 1] != c && TailAfterLast(s[..|s| - 1], c, r)
    ensures TailAfterLast(s, c, r + [s[|s| - 1]])
  {
    var init := s[..|s| - 1];
    assert init[|init| - |r|..] + [s[|s| - 1]] == s[|s| - 1 - |r|..];
    if |r| + 1 < |s| {
      assert init[|init| - |r| - 1] == s[|s| - |r| - 2];
    }
  }

  /** `s.rfind(c)`: the last index holding `c`, or -1. */
  function RFind(s: string, c: char): (i: int)
    ensures -1 <= i < |s|
    ensures i >= 0 ==> s[i] == c
    ensures forall j :: i < j < |s| ==> s[j] != c
  {
    if s == [] then -1
    else if s[|s| - 1] == c then |s| - 1
    else RFind(s[..|s| - 1], c)
  }

  /** The suffix `AfterLast` describes is unique. */
  lemma SuffixAfterSeparatorUnique(s: string, c: char, r1: string, r2: string)
    requires TailAfterLast(s, c, r1) && TailAfterLast(s, c, r2)
    ensures r1 == r2
  {
  }

  /** `s.split(c)` has a single piece exactly when `c` does not occur in `s`. */
  lemma {:induction false} SplitSingleIff(s: string, c: char)
    ensures |Split(s, c)| == 1 <==> c !in s
  {
    if s != [] {
      SplitSingleIff(s[1..], c);
      assert s == [s[0]] + s[1..];
    }
  }

  /** The last piece of `s.split(c)` is the tail of `s` after its last `c`. */
  lemma {:induction false} SplitLastPiece(s: string, c: char)
    ensures TailAfterLast(s, c, Last(Split(s, c)))
  {
    if s != [] {
      var t := s[1..];
      SplitLastPiece(t, c);
      var l := Last(Split(t, c));
      SplitLastStep(s, c);
      SplitSingleIff(t, c);
      if s[0] != c && |Split(t, c)| == 1 {
        TailOfWhole(t, c, l);
        assert [s[0]] + t == s;
      } else {
        TailExtends(s, c, l);
      }
    }
  }

  function Last(p: seq<string>): string
    requires p != []
  {
    p[|p| - 1]
  }

  /** How the last piece of a split changes when one character is put in front. */
  lemma SplitLastStep(s: string, c: char)
    requires s != []
    ensures var rest := Split(s[1..], c);
      Last(Split(s, c)) == if s[0] != c && |rest| == 1 then [s[0]] + rest[0] else Last(rest)
  {
  }

  /** A `c`-free string's only tail is itself. */
  lemma TailOfWhole(t: string, c: char, l: string)
    requires c !in t && TailAfterLast(t, c, l)
    ensures l == t
  {
  }

  /** A tail of `s[1..]` that follows a `c` in it, or any tail when `s[0]` is `c`, is a tail of `s`. */
  lemma TailExtends(s: string, c: char, l: string)
    requires s != [] && TailAfterLast(s[1..], c, l)
    requires s[0] == c || l != s[1..]
    ensures TailAfterLast(s, c, l)
  {
    assert s[1..][|s| - 1 - |l|..] == s[|s| - |l|..];
    if |l| < |s| - 1 {
      assert s[1..][|s| - 1 - |l| - 1] == s[|s| - |l| - 1];
    }
  }

  /** `s.split(c)[-1] == s.rsplit(c, 1)[-1]` for every `s`. */
  lemma SplitLastIsAfterLast(s: string, c: char)
    ensures Split(s, c)[|Split(s, c)| - 1] == AfterLast(s, c)
  {
    SplitLastPiece(s, c);
    AfterLastShape(s, c);
    SuffixAfterSeparatorUnique(s, c, Last(Split(s, c)), AfterLast(s, c));
  }

  lemma {:induction false} SplitWithoutSeparator(a: string, c: char)
    requires c !in a
    ensures Split(a, c) == [a]
  {
    if a != [] {
      SplitWithoutSeparator(a[1..], c);
      assert [a[0]] + a[1..] == a;
    }
  }

  lemma {:induction false} SplitAtFirstSeparator(a: string, b: string, c: char)
    requires c !in a
    ensures Split(a + [c] + b, c) == [a] + Split(b, c)
  {
    if a == [] {
      assert (a + [c] + b)[1..] == b;
    } else {
      assert (a + [c] + b)[1..] == a[1..] + [c] + b;
      SplitAtFirstSeparator(a[1..], b, c);
      assert [a[0]] + a[1..] == a;
    }
  }

  /** Splitting a join on a separator that no part contains gives the parts back. */
  lemma {:induction false} SplitJoin(parts: seq<string>, c: char)
    requires |parts| >= 1
    requires forall k :: 0 <= k < |parts| ==> c !in parts[k]
    ensures Split(Join(parts, [c]), c) == parts
  {
    if |parts| == 1 {
      SplitWithoutSeparator(parts[0], c);
    } else {
      SplitJoin(parts[1..], c);
      SplitAtFirstSeparator(parts[0], Join(parts[1..], [c]), c);
      assert [parts[0]] + parts[1..] == parts;
    }
  }
}
