/**
 * Text helpers of the bot: Markdown escaping, the roman-numeral converter
 * used for anchor ids, and the string part of a passage lookup (the marker
 * slice of the fetched page, the anchor id and the bold header).
 */
module Text {
  import opened PyStr

  // ---------------------------------------------------------------------
  // Markdown escaping
  // ---------------------------------------------------------------------

  /** The characters the chat's Markdown dialect treats specially. */
  predicate IsMarkdownSpecial(c: char) {
    c == '*' || c == '_' || c == '`' || c == '['
  }

  /** strip_markdown: four successive replace calls, one per special character. */
  function StripMarkdown(s: string): string {
    ReplaceChar(ReplaceChar(ReplaceChar(ReplaceChar(s, '*', "\\*"), '_', "\\_"), '`', "\\`"), '[', "\\[")
  }

  function Escaped(c: char): string {
    if IsMarkdownSpecial(c) then ['\\', c] else [c]
  }

  /** Reference definition: each special character gets its own backslash,
      everything else is copied. */
  function EscapeEach(s: string): string {
    if s == [] then [] else Escaped(s[0]) + EscapeEach(s[1..])
  }

  /** Inverse of the escaping: a backslash in front of a special character
      is dropped, everything else is copied. */
  function Unescape(t: string): string
    decreases |t|
  {
    if t == [] then []
    else if |t| >= 2 && t[0] == '\\' && IsMarkdownSpecial(t[1]) then [t[1]] + Unescape(t[2..])
    else [t[0]] + Unescape(t[1..])
  }

  function CountSpecial(s: string): nat {
    if s == [] then 0 else (if IsMarkdownSpecial(s[0]) then 1 else 0) + CountSpecial(s[1..])
  }

  lemma StripMarkdownAppend(a: string, b: string)
    ensures StripMarkdown(a + b) == StripMarkdown(a) + StripMarkdown(b)
  {
    var a1, b1 := ReplaceChar(a, '*', "\\*"), ReplaceChar(b, '*', "\\*");
    ReplaceCharAppend(a, b, '*', "\\*");
    var a2, b2 := ReplaceChar(a1, '_', "\\_"), ReplaceChar(b1, '_', "\\_");
    ReplaceCharAppend(a1, b1, '_', "\\_");
    var a3, b3 := ReplaceChar(a2, '`', "\\`"), ReplaceChar(b2, '`', "\\`");
    ReplaceCharAppend(a2, b2, '`', "\\`");
    ReplaceCharAppend(a3, b3, '[', "\\[");
  }

  lemma ReplaceSingle(c: char, d: char, r: string)
    ensures ReplaceChar([c], d, r) == if c == d then r else [c]
  {
    assert [c][1..] == [];
  }

  lemma StripMarkdownChar(c: char)
    ensures StripMarkdown([c]) == Escaped(c)
  {
    ReplaceSingle(c, '*', "\\*");
    var x1 := ReplaceChar([c], '*', "\\*");
    if c == '*' {
      ReplaceCharAbsent(x1, '_', "\\_");
      ReplaceCharAbsent(x1, '`', "\\`");
      ReplaceCharAbsent(x1, '[', "\\[");
    } else {
      ReplaceSingle(c, '_', "\\_");
      var x2 := ReplaceChar(x1, '_', "\\_");
      if c == '_' {
        ReplaceCharAbsent(x2, '`', "\\`");
        ReplaceCharAbsent(x2, '[', "\\[");
      } else {
        ReplaceSingle(c, '`', "\\`");
        var x3 := ReplaceChar(x2, '`', "\\`");
        if c == '`' {
          ReplaceCharAbsent(x3, '[', "\\[");
        } else {
          ReplaceSingle(c, '[', "\\[");
        }
      }
    }
  }

  /** The four chained replacements escape each special character exactly
      once: the later replacements never see a backslash they would touch. */
  lemma {:induction false} StripMarkdownIsEscapeEach(s: string)
    ensures StripMarkdown(s) == EscapeEach(s)
  {
    if s != [] {
      assert s == [s[0]] + s[1..];
      StripMarkdownAppend([s[0]], s[1..]);
      StripMarkdownChar(s[0]);
      StripMarkdownIsEscapeEach(s[1..]);
    }
  }

  lemma {:induction false} EscapeEachFacts(s: string)
    ensures |EscapeEach(s)| == |s| + CountSpecial(s)
    ensures CountSpecial(EscapeEach(s)) == CountSpecial(s)
    ensures EscapeEach(s) == [] || !IsMarkdownSpecial(EscapeEach(s)[0])
    ensures forall i :: 0 <= i < |EscapeEach(s)| && IsMarkdownSpecial(EscapeEach(s)[i]) ==>
      0 < i && EscapeEach(s)[i - 1] == '\\'
    ensures CountSpecial(s) == 0 ==> EscapeEach(s) == s
  {
    if s != [] {
      EscapeEachFacts(s[1..]);
      var e, rest := Escaped(s[0]), EscapeEach(s[1..]);
      CountSpecialAppend(e, rest);
      var t := e + rest;
      forall i | 0 <= i < |t| && IsMarkdownSpecial(t[i])
        ensures 0 < i && t[i - 1] == '\\'
      {
        if i >= |e| {
          assert t[i] == rest[i - |e|];
          if i - |e| == 0 {
            assert false;
          }
        }
      }
    }
  }

  lemma {:induction false} CountSpecialAppend(a: string, b: string)
    ensures CountSpecial(a + b) == CountSpecial(a) + CountSpecial(b)
  {
    if a != [] {
      assert (a + b)[1..] == a[1..] + b;
      CountSpecialAppend(a[1..], b);
    } else {
      assert a + b == b;
    }
  }

  lemma {:induction false} UnescapeEscapeEach(s: string)
    ensures Unescape(EscapeEach(s)) == s
  {
    if s != [] {
      var rest := EscapeEach(s[1..]);
      EscapeEachFacts(s[1..]);
      UnescapeEscapeEach(s[1..]);
      if IsMarkdownSpecial(s[0]) {
        var t := ['\\', s[0]] + rest;
        assert t[2..] == rest;
      } else {
        var t := [s[0]] + rest;
        assert t[1..] == rest;
        assert |t| >= 2 ==> t[1] == rest[0];
      }
    }
  }

  /** What strip_markdown promises: each special character is preceded by a
      backslash, the added backslashes are the only change (removing them
      gives the input back), and text without special characters is left
      as it is. */
  lemma StripMarkdownSpec(s: string)
    ensures |StripMarkdown(s)| == |s| + CountSpecial(s)
    ensures Unescape(StripMarkdown(s)) == s
    ensures forall i :: 0 <= i < |StripMarkdown(s)| && IsMarkdownSpecial(StripMarkdown(s)[i]) ==>
      0 < i && StripMarkdown(s)[i - 1] == '\\'
    ensures CountSpecial(s) == 0 ==> StripMarkdown(s) == s
  {
    StripMarkdownIsEscapeEach(s);
    EscapeEachFacts(s);
    UnescapeEscapeEach(s);
  }

  /** Escaping is idempotent exactly on text without special characters;
      otherwise a second pass escapes again. */
  lemma StripMarkdownIdempotentIff(s: string)
    ensures StripMarkdown(StripMarkdown(s)) == StripMarkdown(s) <==> CountSpecial(s) == 0
  {
    var t := StripMarkdown(s);
    StripMarkdownIsEscapeEach(s);
    StripMarkdownIsEscapeEach(t);
    EscapeEachFacts(s);
    EscapeEachFacts(t);
  }

  // ---------------------------------------------------------------------
  // Roman numerals
  // ---------------------------------------------------------------------

  /** The ordered table arabic_to_roman walks: value and letters. */
  const RomanTable: seq<(int, string)> := [(5, "V"), (4, "IV"), (1, "I")]

  /** The greedy conversion in closed form. Python's divmod by a positive
      divisor floors, which is what Dafny's / and % do. */
  function RomanNumeral(n: int): string {
    Repeat("V", n / 5) + Repeat("IV", n % 5 / 4) + Repeat("I", n % 5 % 4)
  }

  /** What the greedy loop still appends from table row `i` on, given the
      remaining `num`, if it never stopped early. */
  ghost function GreedyFrom(num: int, i: nat): string
    requires i <= |RomanTable|
    decreases |RomanTable| - i
  {
    if i == |RomanTable| then []
    else Repeat(RomanTable[i].1, num / RomanTable[i].0) + GreedyFrom(num % RomanTable[i].0, i + 1)
  }

  lemma GreedyFromZero(i: nat)
    requires i <= |RomanTable|
    ensures GreedyFrom(0, i) == []
    decreases |RomanTable| - i
  {
    if i < |RomanTable| {
      GreedyFromZero(i + 1);
    }
  }

  lemma GreedyFromStart(n: int)
    ensures GreedyFrom(n, 0) == RomanNumeral(n)
  {
    var k := n % 5 % 4;
    assert k / 1 == k && k % 1 == 0;
    assert GreedyFrom(k, 3) == [];
    assert GreedyFrom(k, 2) == Repeat("I", k);
    assert GreedyFrom(n % 5, 1) == Repeat("IV", n % 5 / 4) + Repeat("I", k);
  }

  /** Taking whole multiples of a row's value out of `num` leaves num % value. */
  lemma RowRemainder(num: int, i: nat)
    requires i < |RomanTable|
    ensures num - RomanTable[i].0 * (num / RomanTable[i].0) == num % RomanTable[i].0 >= 0
  {
    if i == 0 {
      assert RomanTable[i].0 == 5;
    } else if i == 1 {
      assert RomanTable[i].0 == 4;
    } else {
      assert RomanTable[i].0 == 1;
    }
  }

  /** One pass of the loop: appending this row's letters moves them from
      what is still to come to what is done; once nothing is left, nothing
      more would be appended. */
  lemma GreedyAdvance(done: string, num: int, i: nat)
    requires i < |RomanTable|
    ensures var r := RomanTable[i].0;
      var next := done + Repeat(RomanTable[i].1, num / r);
      && done + GreedyFrom(num, i) == next + GreedyFrom(num - r * (num / r), i + 1)
      && num - r * (num / r) >= 0
      && (num - r * (num / r) == 0 ==> done + GreedyFrom(num, i) == next)
  {
    var r := RomanTable[i].0;
    RowRemainder(num, i);
    var letters := Repeat(RomanTable[i].1, num / r);
    var rest := GreedyFrom(num % r, i + 1);
    assert done + (letters + rest) == (done + letters) + rest;
    if num % r == 0 {
      GreedyFromZero(i + 1);
      assert (done + letters) + [] == done + letters;
    }
  }

  /** arabic_to_roman: walks the table, appending letters * (num // value)
      and stopping as soon as nothing is left. */
  method ArabicToRoman(numeral: int) returns (roman: string)
    ensures roman == RomanNumeral(numeral)
  {
    GreedyFromStart(numeral);
    roman := "";
    var num := numeral;
    var i := 0;
    while i < |RomanTable|
      invariant 0 <= i <= |RomanTable|
      invariant roman + GreedyFrom(num, i) == RomanNumeral(numeral)
    {
      GreedyAdvance(roman, num, i);
      var r := RomanTable[i].0;
      var x := num / r;
      roman := roman + Repeat(RomanTable[i].1, x);
      num := num - r * x;
      if num <= 0 {
        assert roman == RomanNumeral(numeral);
        break;
      }
      i := i + 1;
    }
    assert i == |RomanTable| ==> GreedyFrom(num, i) == [];
  }

  /** Only the letters V and I ever occur. */
  predicate OnlyVI(s: string) {
    forall i :: 0 <= i < |s| ==> s[i] == 'V' || s[i] == 'I'
  }

  lemma {:induction false} RepeatOnlyVI(u: string, k: int)
    requires OnlyVI(u)
    ensures OnlyVI(Repeat(u, k))
    decreases k
  {
    if k > 0 {
      RepeatOnlyVI(u, k - 1);
    }
  }

  lemma RomanNumeralLetters(n: int)
    ensures OnlyVI(RomanNumeral(n))
  {
    RepeatOnlyVI("V", n / 5);
    RepeatOnlyVI("IV", n % 5 / 4);
    RepeatOnlyVI("I", n % 5 % 4);
  }

  /** The seven article numbers give the familiar numerals; 0 gives the
      empty string and 9 the non-standard "VIV". */
  lemma ArticleNumerals()
    ensures RomanNumeral(0) == ""
    ensures RomanNumeral(1) == "I" && RomanNumeral(2) == "II" && RomanNumeral(3) == "III"
    ensures RomanNumeral(4) == "IV" && RomanNumeral(5) == "V" && RomanNumeral(6) == "VI"
    ensures RomanNumeral(7) == "VII"
    ensures RomanNumeral(9) == "VIV"
  {
    SmallNumerals();
    LargerNumerals();
  }

  lemma SmallNumerals()
    ensures RomanNumeral(0) == ""
    ensures RomanNumeral(1) == "I" && RomanNumeral(2) == "II" && RomanNumeral(3) == "III"
    ensures RomanNumeral(4) == "IV"
  {
  }

  lemma LargerNumerals()
    ensures RomanNumeral(5) == "V" && RomanNumeral(6) == "VI"
    ensures RomanNumeral(7) == "VII"
    ensures RomanNumeral(9) == "VIV"
  {
  }

  /** Independent reading of a numeral made of I and V: V counts 5, I counts
      1, or -1 when a V follows it. */
  function RomanValue(s: string): int {
    if s == [] then 0
    else
      var v := if s[0] == 'V' then 5
               else if s[0] == 'I' then (if |s| > 1 && s[1] == 'V' then -1 else 1)
               else 0;
      v + RomanValue(s[1..])
  }

  lemma {:induction false} RomanValueAppend(a: string, b: string)
    requires a == [] || b == [] || a[|a| - 1] != 'I' || b[0] != 'V'
    ensures RomanValue(a + b) == RomanValue(a) + RomanValue(b)
  {
    if a == [] {
      assert a + b == b;
    } else {
      assert (a + b)[1..] == a[1..] + b;
      RomanValueAppend(a[1..], b);
    }
  }

  lemma {:induction false} RepeatEnds(u: string, k: int)
    requires u != [] && k > 0
    ensures Repeat(u, k) != [] && Repeat(u, k)[0] == u[0]
    ensures Repeat(u, k)[|Repeat(u, k)| - 1] == u[|u| - 1]
    decreases k
  {
    if k > 1 {
      RepeatEnds(u, k - 1);
    }
  }

  lemma {:induction false} RepeatValue(u: string, k: nat)
    requires u == "V" || u == "I"
    ensures RomanValue(Repeat(u, k)) == k * (if u == "V" then 5 else 1)
    decreases k
  {
    if k > 0 {
      RepeatValue(u, k - 1);
      var rest := Repeat(u, k - 1);
      if rest != [] {
        RepeatEnds(u, k - 1);
      }
      RomanValueAppend(u, rest);
    }
  }

  /** Round trip: reading the numeral back gives the number, for every
      n >= 0; so distinct article numbers give distinct anchors. */
  lemma {:induction false} RomanRoundTrip(n: int)
    requires n >= 0
    ensures RomanValue(RomanNumeral(n)) == n
  {
    var a, b, c := n / 5, n % 5 / 4, n % 5 % 4;
    RomanDigits(n);
    var vs, ivs, ones := Repeat("V", a), Repeat("IV", b), Repeat("I", c);
    RepeatValue("V", a);
    RepeatValue("I", c);
    if b == 1 {
      assert ivs == "IV";
    } else {
      assert ivs == [];
    }
    RomanValueAppend(ivs, ones);
    if a > 0 {
      RepeatEnds("V", a);
    }
    RomanValueAppend(vs, ivs + ones);
    assert RomanNumeral(n) == vs + (ivs + ones);
  }

  /** n splits into fives, at most one four, and at most three ones. */
  lemma RomanDigits(n: int)
    requires n >= 0
    ensures n == 5 * (n / 5) + 4 * (n % 5 / 4) + n % 5 % 4
    ensures 0 <= n / 5 && (n % 5 / 4 == 0 || n % 5 / 4 == 1) && 0 <= n % 5 % 4 < 4
  {
    var m := n % 5;
    assert n == 5 * (n / 5) + m;
    assert m == 4 * (m / 4) + m % 4;
  }

  lemma RomanNumeralInjective(m: int, n: int)
    requires m >= 0 && n >= 0
    requires RomanNumeral(m) == RomanNumeral(n)
    ensures m == n
  {
    RomanRoundTrip(m);
    RomanRoundTrip(n);
  }

  // ---------------------------------------------------------------------
  // The string part of get_passage
  // ---------------------------------------------------------------------

  const PassageMarker := "<div class=\"prp-pages-output"
  const TableMarker := "<table>"
  const ConstitutionUrl := "https://en.wikisource.org/wiki/Constitution_of_the_United_States_of_America"
  const BillOfRightsUrl := "https://en.wikisource.org/wiki/United_States_Bill_of_Rights"
  const FetchErrorText := "Error fetching passage."

  /** html[start:end - 1], where start is the first content marker and end
      the first table after it; None stands for the EMPTY answer. */
  function MarkerSlice(html: string): Option<string> {
    var start := Find(html, PassageMarker, 0);
    if start == -1 then None
    else Some(Slice(html, start, Find(html, TableMarker, start) - 1))
  }

  lemma MarkerSliceEmptyIff(html: string)
    ensures MarkerSlice(html) == None <==> forall j :: !OccursAt(html, PassageMarker, j)
  {
    var start := Find(html, PassageMarker, 0);
    FindSpec(html, PassageMarker, 0);
    if start == -1 {
      forall j ensures !OccursAt(html, PassageMarker, j) {
        if j >= 0 {
          assert !OccursAt(html, PassageMarker, j);
        }
      }
    }
  }

  /** No table can start where the marker starts. */
  lemma TableNotAtMarker(html: string, start: nat)
    requires OccursAt(html, PassageMarker, start)
    ensures !OccursAt(html, TableMarker, start)
  {
    assert html[start..start + |PassageMarker|][1] == 'd';
    assert html[start..start + |TableMarker|][1] == 'd';
  }

  lemma FirstMarker(html: string, start: nat)
    requires OccursAt(html, PassageMarker, start)
    requires forall j :: 0 <= j < start ==> !OccursAt(html, PassageMarker, j)
    ensures Find(html, PassageMarker, 0) == start
  {
    FindFirst(html, PassageMarker, 0, start);
  }

  /** With a table after the marker, the passage runs from the marker to one
      character before the table: that character is dropped, and the slice
      never contains a table opening. */
  lemma MarkerSliceBeforeTable(html: string, start: nat, end: nat)
    requires OccursAt(html, PassageMarker, start)
    requires forall j :: 0 <= j < start ==> !OccursAt(html, PassageMarker, j)
    requires start <= end && OccursAt(html, TableMarker, end)
    requires forall j :: start <= j < end ==> !OccursAt(html, TableMarker, j)
    ensures start < end
    ensures MarkerSlice(html) == Some(html[start..end - 1])
    ensures html[start..end - 1] + [html[end - 1]] == html[start..end]
    ensures !Contains(html[start..end - 1], TableMarker)
  {
    FirstMarker(html, start);
    TableNotAtMarker(html, start);
    FindFirst(html, TableMarker, start, end);
    NoTableBefore(html, start, end);
  }

  lemma NoTableBefore(html: string, start: nat, end: nat)
    requires start < end <= |html|
    requires forall j :: start <= j < end ==> !OccursAt(html, TableMarker, j)
    ensures !Contains(html[start..end - 1], TableMarker)
  {
    var frag := html[start..end - 1];
    var j := Find(frag, TableMarker, 0);
    FindSpec(frag, TableMarker, 0);
    if j != -1 {
      SliceOfSlice(html, start, end - 1, j, |TableMarker|);
      assert OccursAt(html, TableMarker, start + j);
    }
  }

  lemma SliceOfSlice(s: string, lo: nat, hi: nat, i: nat, n: nat)
    requires lo <= hi <= |s| && i + n <= hi - lo
    ensures s[lo..hi][i..i + n] == s[lo + i..lo + i + n]
  {
    var a, b := s[lo..hi][i..i + n], s[lo + i..lo + i + n];
    forall k | 0 <= k < n
      ensures a[k] == b[k]
    {
    }
  }

  /** Without a table after the marker, end is -1 and the slice html[start:-2]
      drops the last two characters of the page. */
  lemma MarkerSliceWithoutTable(html: string, start: nat)
    requires OccursAt(html, PassageMarker, start)
    requires forall j :: 0 <= j < start ==> !OccursAt(html, PassageMarker, j)
    requires forall j :: start <= j ==> !OccursAt(html, TableMarker, j)
    ensures start < |html| - 2
    ensures MarkerSlice(html) == Some(html[start..|html| - 2])
  {
    FirstMarker(html, start);
    FindSpec(html, TableMarker, start);
    assert Find(html, TableMarker, start) == -1;
  }

  function DigitValue(c: char): int
    requires '0' <= c <= '9'
  {
    c as int - '0' as int
  }

  /** 'a' + arabic_to_roman(int(passage[0])); None stands for the exception
      int() or the indexing raises (empty passage, non-digit first character). */
  function AnchorId(passage: string): Option<string> {
    if passage == [] || !('0' <= passage[0] <= '9') then None
    else Some("a" + RomanNumeral(DigitValue(passage[0])))
  }

  /** '*' + strip_markdown(('Article ' + roman).strip()) + '*' */
  function Header(roman: string): string {
    "*" + StripMarkdown(Strip("Article " + roman)) + "*"
  }

  /** "Article " loses its trailing blank, and has nothing to escape. */
  lemma ArticleTitle()
    ensures Strip("Article ") == "Article"
    ensures StripMarkdown("Article") == "Article"
  {
    var s := "Article ";
    assert !IsSpace(s[0]) && IsSpace(s[|s| - 1]);
    assert LStrip(s) == s;
    assert s[..|s| - 1] == "Article";
    assert !IsSpace("Article"[6]);
    assert RStrip("Article") == "Article";
    assert RStrip(s) == "Article";
    NoSpecialCount("Article");
    StripMarkdownSpec("Article");
  }

  lemma EmptyTitle(roman: string)
    requires roman == []
    ensures StripMarkdown(Strip("Article " + roman)) == "Article"
  {
    assert "Article " + roman == "Article ";
    ArticleTitle();
  }

  lemma BoldArticle(t: string)
    requires t == "Article"
    ensures "*" + t + "*" == "*Article*"
  {
  }

  /** The header of article 0, whose numeral is empty: the blank after
      "Article" is stripped. */
  lemma HeaderOfEmptyNumeral(roman: string)
    requires roman == []
    ensures Header(roman) == "*Article*"
  {
    EmptyTitle(roman);
    BoldArticle(StripMarkdown(Strip("Article " + roman)));
  }

  /** The header of an article whose numeral is a non-empty run of V and I:
      nothing is stripped and nothing is escaped. */
  lemma HeaderOfNumeral(roman: string)
    requires OnlyVI(roman) && roman != []
    ensures Header(roman) == "*Article " + roman + "*"
  {
    var title := "Article " + roman;
    TitleOfNumeral(roman);
    StripMarkdownSpec(title);
  }

  /** "Article " followed by a numeral has no blank at either end and no
      character to escape. */
  lemma TitleOfNumeral(roman: string)
    requires OnlyVI(roman) && roman != []
    ensures Strip("Article " + roman) == "Article " + roman
    ensures CountSpecial("Article " + roman) == 0
  {
    var title := "Article " + roman;
    assert title[|title| - 1] == roman[|roman| - 1];
    StripUnchanged(title);
    forall i | 0 <= i < |title|
      ensures !IsMarkdownSpecial(title[i])
    {
      if i >= 8 {
        assert title[i] == roman[i - 8];
      }
    }
    NoSpecialCount(title);
  }

  /** For a passage starting with a digit d, the anchor is 'a' followed by
      the numeral of d and the header is that numeral in bold after
      "Article"; for 0 the numeral is empty and the header is "*Article*". */
  lemma AnchorAndHeader(passage: string)
    requires passage != [] && '0' <= passage[0] <= '9'
    ensures AnchorId(passage) == Some("a" + RomanNumeral(DigitValue(passage[0])))
    ensures var d := DigitValue(passage[0]);
      Header(RomanNumeral(d)) == if d == 0 then "*Article*" else "*Article " + RomanNumeral(d) + "*"
  {
    var d := DigitValue(passage[0]);
    RomanRoundTrip(d);
    if d == 0 {
      assert RomanNumeral(d) == [];
      HeaderOfEmptyNumeral(RomanNumeral(d));
    } else {
      assert RomanNumeral(d) != [];
      RomanNumeralLetters(d);
      HeaderOfNumeral(RomanNumeral(d));
    }
  }

  lemma {:induction false} NoSpecialCount(s: string)
    requires forall i :: 0 <= i < |s| ==> !IsMarkdownSpecial(s[i])
    ensures CountSpecial(s) == 0
  {
    if s != [] {
      NoSpecialCount(s[1..]);
    }
  }

  datatype FetchOutcome = Fetched(html: string) | FetchFailed

  /** The part of get_passage's answer this model follows: EMPTY, the
      error text sent when the fetch fails, an exception from int(), or the
      marker slice together with the anchor id and header that the markup
      processing starts from. */
  datatype PassageResult =
    | Empty
    | FetchError(text: string)
    | Raised
    | Extracted(fragment: string, anchorId: string, header: string)

  function SourceUrl(isAmendment: bool): string {
    if isAmendment then BillOfRightsUrl else ConstitutionUrl
  }

  /** get_passage up to the markup processing. `fetch` is the page download. */
  function GetPassage(passage: string, isAmendment: bool, fetch: string -> FetchOutcome): PassageResult {
    match fetch(SourceUrl(isAmendment))
    case FetchFailed => FetchError(FetchErrorText)
    case Fetched(html) =>
      match MarkerSlice(html)
      case None => Empty
      case Some(fragment) =>
        match AnchorId(passage)
        case None => Raised
        case Some(id) => Extracted(fragment, id, Header(id[1..]))
  }

  /** The outcome of a lookup: EMPTY exactly when the page came but lacks the
      marker; an exception exactly when the marker is there but the passage
      does not start with a digit; otherwise the article anchor and header. */
  lemma GetPassageOutcomes(passage: string, isAmendment: bool, fetch: string -> FetchOutcome)
    requires fetch(SourceUrl(isAmendment)).Fetched?
    ensures var html := fetch(SourceUrl(isAmendment)).html;
      && (GetPassage(passage, isAmendment, fetch) == Empty <==> forall j :: !OccursAt(html, PassageMarker, j))
      && (GetPassage(passage, isAmendment, fetch) == Raised <==>
            MarkerSlice(html).Some? && (passage == [] || !('0' <= passage[0] <= '9')))
      && (GetPassage(passage, isAmendment, fetch).Extracted? ==>
            var d := DigitValue(passage[0]);
            && GetPassage(passage, isAmendment, fetch).anchorId == "a" + RomanNumeral(d)
            && GetPassage(passage, isAmendment, fetch).header ==
                 (if d == 0 then "*Article*" else "*Article " + RomanNumeral(d) + "*"))
  {
    var html := fetch(SourceUrl(isAmendment)).html;
    MarkerSliceEmptyIff(html);
    if MarkerSlice(html).Some? && passage != [] && '0' <= passage[0] <= '9' {
      AnchorAndHeader(passage);
      var id := "a" + RomanNumeral(DigitValue(passage[0]));
      assert id[1..] == RomanNumeral(DigitValue(passage[0]));
    }
  }

  /** The amendment flag only chooses which page is fetched: given the same
      page, an amendment lookup answers exactly like an article lookup. */
  lemma AmendmentOnlyChoosesPage(passage: string, fetchA: string -> FetchOutcome, fetchB: string -> FetchOutcome)
    requires fetchA(BillOfRightsUrl) == fetchB(ConstitutionUrl)
    ensures GetPassage(passage, true, fetchA) == GetPassage(passage, false, fetchB)
  {
  }
}
