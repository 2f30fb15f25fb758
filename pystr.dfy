/**
 * The Python string built-ins the bot's core relies on, written out over
 * `string` (= seq<char>): whitespace, strip/split, ASCII case mapping,
 * prefix tests, find, slicing, repetition and single-character replace.
 */
module PyStr {

  datatype Option<+T> = None | Some(value: T)

  /** Characters for which Python's str.isspace() holds; str.split() and
      str.strip() without arguments break and trim on exactly these. */
  predicate IsSpace(c: char) {
    || c == ' '
    || ('\t' <= c <= '\r')
    || ('\U{1c}' <= c <= '\U{1f}')
    || c == '\U{85}' || c == '\U{a0}' || c == '\U{1680}'
    || ('\U{2000}' <= c <= '\U{200a}')
    || c == '\U{2028}' || c == '\U{2029}' || c == '\U{202f}'
    || c == '\U{205f}' || c == '\U{3000}'
  }

  predicate AllSpace(s: string) {
    forall i :: 0 <= i < |s| ==> IsSpace(s[i])
  }

  /** str.lstrip() */
  function LStrip(s: string): (r: string)
    ensures |r| <= |s|
  {
    if s != [] && IsSpace(s[0]) then LStrip(s[1..]) else s
  }

  /** What lstrip removes is a run of whitespace at the front, and what it
      keeps is the rest, starting with a non-blank character if any. */
  lemma {:induction false} LStripSpec(s: string)
    ensures LStrip(s) == s[|s| - |LStrip(s)|..]
    ensures AllSpace(s[..|s| - |LStrip(s)|])
    ensures LStrip(s) == [] || !IsSpace(LStrip(s)[0])
  {
    if s != [] && IsSpace(s[0]) {
      var r := LStrip(s[1..]);
      LStripSpec(s[1..]);
      var k := |s| - |r|;
      assert s[1..][|s| - 1 - |r|..] == s[k..];
      forall i | 0 <= i < k
        ensures IsSpace(s[..k][i])
      {
        if i > 0 {
          assert s[..k][i] == s[1..][..k - 1][i - 1];
        }
      }
    }
  }

  /** str.rstrip() */
  function RStrip(s: string): (r: string)
    ensures |r| <= |s|
  {
    if s != [] && IsSpace(s[|s| - 1]) then RStrip(s[..|s| - 1]) else s
  }

  /** What rstrip removes is a run of whitespace at the end, and what it
      keeps is the front, ending with a non-blank character if any. */
  lemma {:induction false} RStripSpec(s: string)
    ensures RStrip(s) == s[..|RStrip(s)|]
    ensures AllSpace(s[|RStrip(s)|..])
    ensures RStrip(s) == [] || !IsSpace(RStrip(s)[|RStrip(s)| - 1])
  {
    if s != [] && IsSpace(s[|s| - 1]) {
      var t := s[..|s| - 1];
      var r := RStrip(t);
      RStripSpec(t);
      assert t[..|r|] == s[..|r|];
      forall i | 0 <= i < |s| - |r|
        ensures IsSpace(s[|r|..][i])
      {
        if i < |t| - |r| {
          assert s[|r|..][i] == t[|r|..][i];
        }
      }
    }
  }

  /** str.strip() */
  function Strip(s: string): (r: string)
    ensures |r| <= |s|
  {
    RStrip(LStrip(s))
  }

  /** Nothing is left exactly when the input is all whitespace, and what is
      left neither starts nor ends with whitespace. */
  lemma StripSpec(s: string)
    ensures Strip(s) == [] <==> AllSpace(s)
    ensures Strip(s) != [] ==> !IsSpace(Strip(s)[0]) && !IsSpace(Strip(s)[|Strip(s)| - 1])
  {
    var t := LStrip(s);
    var r := RStrip(t);
    LStripSpec(s);
    RStripSpec(t);
    assert s == s[..|s| - |t|] + t;
    assert t == r + t[|r|..];
    if r != [] {
      assert r[0] == t[0];
    }
  }

  /** A string that neither starts nor ends with whitespace is its own strip. */
  lemma StripUnchanged(s: string)
    requires s != [] && !IsSpace(s[0]) && !IsSpace(s[|s| - 1])
    ensures Strip(s) == s
  {
    assert LStrip(s) == s;
  }

  /** The longest prefix of `s` holding no whitespace. */
  function LeadingWord(s: string): (w: string)
    ensures |w| <= |s|
  {
    if s == [] || IsSpace(s[0]) then [] else [s[0]] + LeadingWord(s[1..])
  }

  lemma {:induction false} LeadingWordSpec(s: string)
    ensures LeadingWord(s) <= s
    ensures forall i :: 0 <= i < |LeadingWord(s)| ==> !IsSpace(LeadingWord(s)[i])
    ensures |LeadingWord(s)| == |s| || IsSpace(s[|LeadingWord(s)|])
    ensures s != [] && !IsSpace(s[0]) ==> LeadingWord(s) != []
  {
    if s != [] && !IsSpace(s[0]) {
      LeadingWordSpec(s[1..]);
      var w := LeadingWord(s[1..]);
      assert LeadingWord(s) == [s[0]] + w;
      if |w| < |s| - 1 {
        assert s[|w| + 1] == s[1..][|w|];
      }
    }
  }

  /** A non-blank prefix lies inside the leading word. */
  lemma {:induction false} LeadingWordCovers(s: string, n: nat)
    requires n <= |s|
    requires forall i :: 0 <= i < n ==> !IsSpace(s[i])
    ensures |LeadingWord(s)| >= n
  {
    if n > 0 {
      LeadingWordCovers(s[1..], n - 1);
    }
  }

  /** A blank-free word followed by nothing or by whitespace is the
      leading word. */
  lemma {:induction false} LeadingWordOf(w: string, rest: string)
    requires forall i :: 0 <= i < |w| ==> !IsSpace(w[i])
    requires rest == [] || IsSpace(rest[0])
    ensures LeadingWord(w + rest) == w
  {
    if w != [] {
      assert (w + rest)[1..] == w[1..] + rest;
      LeadingWordOf(w[1..], rest);
    } else {
      assert w + rest == rest;
    }
  }

  /** str.split() with no separator: the maximal runs of non-whitespace. */
  function Split(s: string): (words: seq<string>)
    decreases |s|
  {
    var t := LStrip(s);
    if t == [] then []
    else
      LStripSpec(s);
      LeadingWordSpec(t);
      var w := LeadingWord(t);
      [w] + Split(t[|w|..])
  }

  /** There are no words exactly in an all-whitespace string, and a string
      starting with a non-blank character has its leading word first. */
  lemma SplitSpec(s: string)
    ensures Split(s) == [] <==> AllSpace(s)
    ensures s != [] && !IsSpace(s[0]) ==> Split(s) != [] && Split(s)[0] == LeadingWord(s)
  {
    var t := LStrip(s);
    LStripSpec(s);
    assert s == s[..|s| - |t|] + t;
    if t != [] {
      assert IsSpace(s[|s| - |t|]) == IsSpace(t[0]);
    }
    if s != [] && !IsSpace(s[0]) {
      assert t == s;
    }
  }

  /** ''.join(words) */
  function Concat(words: seq<string>): string {
    if words == [] then [] else words[0] + Concat(words[1..])
  }

  /** The characters of `s` that are not whitespace, in order. */
  function RemoveSpace(s: string): (r: string)
    ensures |r| <= |s|
  {
    if s == [] then [] else (if IsSpace(s[0]) then [] else [s[0]]) + RemoveSpace(s[1..])
  }

  lemma {:induction false} RemoveSpaceAppend(a: string, b: string)
    ensures RemoveSpace(a + b) == RemoveSpace(a) + RemoveSpace(b)
  {
    if a != [] {
      var head := if IsSpace(a[0]) then [] else [a[0]];
      assert (a + b)[0] == a[0];
      assert (a + b)[1..] == a[1..] + b;
      assert RemoveSpace(a + b) == head + RemoveSpace(a[1..] + b);
      RemoveSpaceAppend(a[1..], b);
      assert RemoveSpace(a) == head + RemoveSpace(a[1..]);
    } else {
      assert a + b == b;
    }
  }

  lemma {:induction false} RemoveSpaceOfBlank(s: string)
    requires AllSpace(s)
    ensures RemoveSpace(s) == []
  {
    if s != [] {
      RemoveSpaceOfBlank(s[1..]);
    }
  }

  lemma {:induction false} RemoveSpaceOfWord(s: string)
    requires forall i :: 0 <= i < |s| ==> !IsSpace(s[i])
    ensures RemoveSpace(s) == s
  {
    if s != [] {
      RemoveSpaceOfWord(s[1..]);
    }
  }

  /** Removing the whitespace of two words separated by blanks joins them. */
  lemma RemoveBlanksBetween(s: string, a: string, gap: string, b: string)
    requires forall i :: 0 <= i < |a| ==> !IsSpace(a[i])
    requires forall i :: 0 <= i < |b| ==> !IsSpace(b[i])
    requires AllSpace(gap)
    requires s == a + gap + b
    ensures RemoveSpace(s) == a + b
  {
    var front := a + gap;
    RemoveSpaceOfWord(a);
    RemoveSpaceOfBlank(gap);
    RemoveSpaceOfWord(b);
    RemoveSpaceAppend(a, gap);
    assert RemoveSpace(front) == a + [];
    RemoveSpaceAppend(front, b);
    assert RemoveSpace(s) == RemoveSpace(front) + b;
  }

  /** ''.join(s.split()) is `s` with all its whitespace removed. */
  lemma {:induction false} ConcatSplit(s: string)
    ensures Concat(Split(s)) == RemoveSpace(s)
    decreases |s|
  {
    var t := LStrip(s);
    RemoveSpaceOfLStrip(s);
    if t == [] {
      assert Split(s) == [];
    } else {
      LStripSpec(s);
      LeadingWordSpec(t);
      var w := LeadingWord(t);
      var rest := t[|w|..];
      assert Split(s) == [w] + Split(rest);
      assert ([w] + Split(rest))[1..] == Split(rest);
      assert Concat(Split(s)) == w + Concat(Split(rest));
      ConcatSplit(rest);
      assert t == w + rest;
      RemoveSpaceAppend(w, rest);
      RemoveSpaceOfWord(w);
    }
  }

  /** Stripping first changes nothing once all whitespace is removed. */
  lemma RemoveSpaceOfStrip(s: string)
    ensures RemoveSpace(Strip(s)) == RemoveSpace(s)
  {
    RemoveSpaceOfLStrip(s);
    RemoveSpaceOfRStrip(LStrip(s));
  }

  lemma RemoveSpaceOfLStrip(s: string)
    ensures RemoveSpace(LStrip(s)) == RemoveSpace(s)
  {
    var t := LStrip(s);
    LStripSpec(s);
    var k := |s| - |t|;
    assert s == s[..k] + t;
    RemoveSpaceAppend(s[..k], t);
    RemoveSpaceOfBlank(s[..k]);
  }

  lemma RemoveSpaceOfRStrip(t: string)
    ensures RemoveSpace(RStrip(t)) == RemoveSpace(t)
  {
    var r := RStrip(t);
    RStripSpec(t);
    assert t == r + t[|r|..];
    RemoveSpaceAppend(r, t[|r|..]);
    RemoveSpaceOfBlank(t[|r|..]);
    assert RemoveSpace(r) + [] == RemoveSpace(r);
  }

  function LowerChar(c: char): char {
    if 'A' <= c <= 'Z' then (c as int + 32) as char else c
  }

  function UpperChar(c: char): char {
    if 'a' <= c <= 'z' then (c as int - 32) as char else c
  }

  /** str.lower(), on the ASCII letters */
  function Lower(s: string): (r: string)
    ensures |r| == |s|
  {
    seq(|s|, i requires 0 <= i < |s| => LowerChar(s[i]))
  }

  /** str.upper(), on the ASCII letters */
  function Upper(s: string): (r: string)
    ensures |r| == |s|
  {
    seq(|s|, i requires 0 <= i < |s| => UpperChar(s[i]))
  }

  /** `sub` occurs in `s` starting at index `i`. */
  predicate OccursAt(s: string, sub: string, i: int) {
    0 <= i && i + |sub| <= |s| && s[i..i + |sub|] == sub
  }

  /** str.find(sub, start) for a non-negative start: the first index at or
      after `start` where `sub` occurs, or -1 when there is none. */
  function Find(s: string, sub: string, start: nat): (r: int)
    ensures r >= -1
    decreases |s| + 1 - start
  {
    if start + |sub| > |s| then -1
    else if s[start..start + |sub|] == sub then start
    else Find(s, sub, start + 1)
  }

  lemma {:induction false} FindSpec(s: string, sub: string, start: nat)
    ensures Find(s, sub, start) == -1 || (start <= Find(s, sub, start) && OccursAt(s, sub, Find(s, sub, start)))
    ensures Find(s, sub, start) == -1 ==> forall j :: start <= j ==> !OccursAt(s, sub, j)
    ensures Find(s, sub, start) != -1 ==> forall j :: start <= j < Find(s, sub, start) ==> !OccursAt(s, sub, j)
    decreases |s| + 1 - start
  {
    if start + |sub| <= |s| && s[start..start + |sub|] != sub {
      FindSpec(s, sub, start + 1);
    }
  }

  /** The first occurrence at or after `start` is what find reports. */
  lemma FindFirst(s: string, sub: string, start: nat, k: int)
    requires start <= k && OccursAt(s, sub, k)
    requires forall j :: start <= j < k ==> !OccursAt(s, sub, j)
    ensures Find(s, sub, start) == k
  {
    FindSpec(s, sub, start);
  }

  /** `sub in s` */
  predicate Contains(s: string, sub: string) {
    Find(s, sub, 0) != -1
  }

  /** A Python slice bound: negative indices count from the end, and the
      result is clamped to 0..n. */
  function SliceBound(i: int, n: nat): (k: nat)
    ensures k <= n
  {
    if i < 0 then (if i + n < 0 then 0 else i + n)
    else if i > n then n
    else i
  }

  /** s[lo:hi] */
  function Slice(s: string, lo: int, hi: int): string {
    var a := SliceBound(lo, |s|);
    var b := SliceBound(hi, |s|);
    if a < b then s[a..b] else []
  }

  /** s * k (empty for k <= 0) */
  function Repeat(s: string, k: int): string
    decreases k
  {
    if k <= 0 then [] else s + Repeat(s, k - 1)
  }

  /** s.replace(c, r) for a single-character `c` */
  function ReplaceChar(s: string, c: char, r: string): string {
    if s == [] then []
    else (if s[0] == c then r else [s[0]]) + ReplaceChar(s[1..], c, r)
  }

  lemma {:induction false} ReplaceCharAppend(a: string, b: string, c: char, r: string)
    ensures ReplaceChar(a + b, c, r) == ReplaceChar(a, c, r) + ReplaceChar(b, c, r)
  {
    if a != [] {
      assert (a + b)[1..] == a[1..] + b;
      ReplaceCharAppend(a[1..], b, c, r);
    } else {
      assert a + b == b;
    }
  }

  lemma {:induction false} ReplaceCharAbsent(s: string, c: char, r: string)
    requires forall i :: 0 <= i < |s| ==> s[i] != c
    ensures ReplaceChar(s, c, r) == s
  {
    if s != [] {
      ReplaceCharAbsent(s[1..], c, r);
    }
  }

  /** Replacing a character by a one-character string keeps the length,
      leaves no occurrence of the old character (unless it is the new one),
      and changes nothing else. */
  lemma {:induction false} ReplaceCharPointwise(s: string, c: char, d: char)
    ensures |ReplaceChar(s, c, [d])| == |s|
    ensures forall i :: 0 <= i < |s| ==>
      ReplaceChar(s, c, [d])[i] == (if s[i] == c then d else s[i])
  {
    if s != [] {
      ReplaceCharPointwise(s[1..], c, d);
    }
  }

  lemma {:induction false} ConcatAppend(a: seq<string>, b: seq<string>)
    ensures Concat(a + b) == Concat(a) + Concat(b)
  {
    if a != [] {
      assert (a + b)[1..] == a[1..] + b;
      ConcatAppend(a[1..], b);
    } else {
      assert a + b == b;
    }
  }
}
