/**
 * The string helpers the leaderboard and the trivia page share:
 * JavaScript's `split` on a one-character separator, `join`, the
 * `beautifyCategories` prettifier (src/components/Home.jsx and
 * src/components/TriviaSearch.jsx carry the same code) and the decimal
 * rendering of a number inside a template string.
 */
module Text {

  /** The number of occurrences of `c` in `s`. */
  function Count(s: string, c: char): nat {
    if s == [] then 0 else (if s[0] == c then 1 else 0) + Count(s[1..], c)
  }

  /**
   * `s.split(sep)`: the maximal pieces between separators, so that the
   * empty string gives one empty piece and every separator adds one.
   */
  function Split(s: string, sep: char): (r: seq<string>)
    ensures |r| == Count(s, sep) + 1
  {
    if s == [] then [""]
    else
      var rest := Split(s[1..], sep);
      if s[0] == sep then [""] + rest else [[s[0]] + rest[0]] + rest[1..]
  }

  /** `parts.join(sep)`. */
  function Join(parts: seq<string>, sep: string): string {
    if |parts| == 0 then ""
    else if |parts| == 1 then parts[0]
    else parts[0] + sep + Join(parts[1..], sep)
  }

  /** Joining the pieces of a split with the same separator gives back the string. */
  lemma {:induction false} JoinSplit(s: string, sep: char)
    ensures Join(Split(s, sep), [sep]) == s
  {
    if s != [] {
      JoinSplit(s[1..], sep);
      var rest := Split(s[1..], sep);
      if s[0] != sep {
        JoinPrepend([s[0]], rest[0], rest[1..], [sep]);
        assert [rest[0]] + rest[1..] == rest;
      }
    }
  }

  /**
   * Splitting a join gives back the parts, when there is at least one
   * and none holds the separator.
   */
  lemma {:induction false} SplitJoin(parts: seq<string>, sep: char)
    requires |parts| >= 1
    requires forall i :: 0 <= i < |parts| ==> sep !in parts[i]
    ensures Split(Join(parts, [sep]), sep) == parts
  {
    if |parts| == 1 {
      SplitWithout(parts[0], sep);
    } else {
      SplitJoin(parts[1..], sep);
      SplitPrefix(parts[0], sep, Join(parts[1..], [sep]));
    }
  }

  /** A string without the separator splits into itself. */
  lemma {:induction false} SplitWithout(s: string, sep: char)
    requires sep !in s
    ensures Split(s, sep) == [s]
  {
    if s != [] {
      assert s[0] in s && forall c :: c in s[1..] ==> c in s;
      SplitWithout(s[1..], sep);
      assert [s[0]] + s[1..] == s;
    }
  }

  /** Splitting `w + [sep] + t`, `w` free of the separator, puts `w` in front of the pieces of `t`. */
  lemma {:induction false} SplitPrefix(w: string, sep: char, t: string)
    requires sep !in w
    ensures Split(w + [sep] + t, sep) == [w] + Split(t, sep)
  {
    if w != [] {
      assert w[0] in w && forall c :: c in w[1..] ==> c in w;
      SplitPrefix(w[1..], sep, t);
      assert (w + [sep] + t)[1..] == w[1..] + [sep] + t;
      assert [w[0]] + w[1..] == w;
    } else {
      assert (w + [sep] + t)[1..] == t;
    }
  }

  /** A prefix of the first part comes out in front of the join. */
  lemma {:induction false} JoinPrepend(pre: string, w: string, rest: seq<string>, sep: string)
    ensures Join([pre + w] + rest, sep) == pre + Join([w] + rest, sep)
  {
    assert ([pre + w] + rest)[1..] == rest;
    assert ([w] + rest)[1..] == rest;
  }

  /** Joining parts that are all non-empty gives the empty string only for no parts. */
  lemma JoinEmpty(parts: seq<string>, sep: string)
    requires forall i :: 0 <= i < |parts| ==> parts[i] != ""
    ensures Join(parts, sep) == "" <==> parts == []
  {
    if |parts| >= 2 {
      assert |Join(parts, sep)| >= |parts[0]| > 0;
    }
  }

  /** JavaScript's `toUpperCase` on one character, for the ASCII letters. */
  function Upper(c: char): (u: char)
    ensures 'a' <= c <= 'z' ==> u as int == c as int - 32
    ensures !('a' <= c <= 'z') ==> u == c
  {
    if 'a' <= c <= 'z' then (c as int - 32) as char else c
  }

  /** `word.charAt(0).toUpperCase() + word.slice(1)`. */
  function Capitalize(word: string): string {
    if word == [] then [] else [Upper(word[0])] + word[1..]
  }

  function CapitalizeAll(words: seq<string>): (r: seq<string>)
    ensures |r| == |words|
  {
    if words == [] then [] else [Capitalize(words[0])] + CapitalizeAll(words[1..])
  }

  /** One category: words split on `_`, capitalised, rejoined with spaces. */
  function BeautifyCategory(category: string): string {
    Join(CapitalizeAll(Split(category, '_')), " ")
  }

  function BeautifyAll(categories: seq<string>): (r: seq<string>)
    ensures |r| == |categories|
  {
    if categories == [] then [] else [BeautifyCategory(categories[0])] + BeautifyAll(categories[1..])
  }

  /** `beautifyCategories(categories)`: every category beautified, rejoined with `", "`. */
  function Beautify(categories: string): string {
    Join(BeautifyAll(Split(categories, ',')), ", ")
  }

  /** `Upper` at the start of a word, the character itself elsewhere. */
  function UpperIf(start: bool, c: char): char {
    if start then Upper(c) else c
  }

  /**
   * The prettified text, character by character: `_` becomes a space
   * and starts a word, and the first character of a word is upper-cased.
   */
  function PrettyWords(s: string, start: bool): (r: string)
    ensures |r| == |s|
  {
    if s == [] then []
    else if s[0] == '_' then " " + PrettyWords(s[1..], true)
    else [UpperIf(start, s[0])] + PrettyWords(s[1..], false)
  }

  /**
   * As `PrettyWords`, with `,` becoming `", "` and starting a word: the
   * reference definition of `beautifyCategories`.
   */
  function Pretty(s: string, start: bool): (r: string)
    ensures |r| == |s| + Count(s, ',')
  {
    if s == [] then []
    else if s[0] == ',' then ", " + Pretty(s[1..], true)
    else if s[0] == '_' then " " + Pretty(s[1..], true)
    else [UpperIf(start, s[0])] + Pretty(s[1..], false)
  }

  /** The first word of `words` capitalised only at the start of a word, the others always. */
  lemma {:induction false} PrettyWordsIsJoin(s: string, start: bool)
    ensures var words := Split(s, '_');
            PrettyWords(s, start) ==
              Join([if start then Capitalize(words[0]) else words[0]] + CapitalizeAll(words[1..]), " ")
  {
    if s != [] {
      PrettyWordsIsJoin(s[1..], s[0] == '_');
      var rest := Split(s[1..], '_');
      if s[0] == '_' {
        assert rest == [rest[0]] + rest[1..];
        assert CapitalizeAll(rest) == [Capitalize(rest[0])] + CapitalizeAll(rest[1..]);
        assert ([""] + CapitalizeAll(rest))[1..] == CapitalizeAll(rest);
      } else {
        JoinPrepend([UpperIf(start, s[0])], rest[0], CapitalizeAll(rest[1..]), " ");
      }
    }
  }

  /** One category beautified is its character-by-character prettified form. */
  lemma BeautifyCategoryIsPretty(category: string)
    ensures BeautifyCategory(category) == PrettyWords(category, true)
  {
    PrettyWordsIsJoin(category, true);
    var words := Split(category, '_');
    assert CapitalizeAll(words) == [Capitalize(words[0])] + CapitalizeAll(words[1..]);
  }

  /** The general form of `BeautifyIsPretty`, mid-word or at the start of one. */
  lemma {:induction false} PrettyIsJoin(s: string, start: bool)
    ensures var cats := Split(s, ',');
            Pretty(s, start) == Join([PrettyWords(cats[0], start)] + BeautifyAll(cats[1..]), ", ")
  {
    if s != [] {
      PrettyIsJoin(s[1..], s[0] == ',' || s[0] == '_');
      var rest := Split(s[1..], ',');
      if s[0] == ',' {
        BeautifyCategoryIsPretty(rest[0]);
        assert rest == [rest[0]] + rest[1..];
        assert BeautifyAll(rest) == [BeautifyCategory(rest[0])] + BeautifyAll(rest[1..]);
        assert ([PrettyWords("", start)] + BeautifyAll(rest))[1..] == BeautifyAll(rest);
      } else if s[0] == '_' {
        JoinPrepend(" ", PrettyWords(rest[0], true), BeautifyAll(rest[1..]), ", ");
      } else {
        JoinPrepend([UpperIf(start, s[0])], PrettyWords(rest[0], false), BeautifyAll(rest[1..]), ", ");
      }
    }
  }

  /**
   * `beautifyCategories` turns each `_` into a space, each `,` into
   * `", "`, and upper-cases the first character of every word.
   */
  lemma BeautifyIsPretty(s: string)
    ensures Beautify(s) == Pretty(s, true)
  {
    PrettyIsJoin(s, true);
    var cats := Split(s, ',');
    BeautifyCategoryIsPretty(cats[0]);
    assert BeautifyAll(cats) == [BeautifyCategory(cats[0])] + BeautifyAll(cats[1..]);
  }

  /** The prettified text has no `_` and as many commas as the input. */
  lemma {:induction false} PrettyCounts(s: string, start: bool)
    ensures Count(Pretty(s, start), '_') == 0
    ensures Count(Pretty(s, start), ',') == Count(s, ',')
  {
    if s != [] {
      PrettyCounts(s[1..], s[0] == ',' || s[0] == '_');
      var rest := Pretty(s[1..], s[0] == ',' || s[0] == '_');
      if s[0] == ',' {
        assert (", " + rest)[1..] == " " + rest && (" " + rest)[1..] == rest;
      } else if s[0] == '_' {
        assert (" " + rest)[1..] == rest;
      } else {
        assert ([UpperIf(start, s[0])] + rest)[1..] == rest;
      }
    }
  }

  /**
   * `beautifyCategories` keeps the number of comma-separated categories,
   * leaves no underscore, and adds exactly one space per category break.
   */
  lemma BeautifyShape(s: string)
    ensures |Split(Beautify(s), ',')| == |Split(s, ',')|
    ensures '_' !in Beautify(s)
    ensures |Beautify(s)| == |s| + Count(s, ',')
  {
    BeautifyIsPretty(s);
    PrettyCounts(s, true);
    CountZero(Beautify(s), '_');
  }

  /** A character that occurs in `s` is counted. */
  lemma {:induction false} CountZero(s: string, c: char)
    ensures Count(s, c) == 0 <==> c !in s
  {
    if s != [] {
      CountZero(s[1..], c);
      assert s == [s[0]] + s[1..];
    }
  }

  /** `beautifyCategories("a_b,c")` is `"A B, C"`. */
  lemma BeautifyExample()
    ensures Beautify("a_b,c") == "A B, C"
  {
    BeautifyIsPretty("a_b,c");
    PrettyExample();
  }

  /** The reference definition on `"a_b,c"`, one character at a time. */
  lemma PrettyExample()
    ensures Pretty("a_b,c", true) == "A B, C"
  {
    var c := "c";
    var commaC := [','] + c;
    var bCommaC := ['b'] + commaC;
    var underB := ['_'] + bCommaC;
    var whole := ['a'] + underB;
    assert whole == "a_b,c";
    assert Pretty(c, true) == "C";
    assert Pretty(commaC, false) == ", " + "C";
    assert Pretty(bCommaC, true) == "B" + (", " + "C");
    assert Pretty(underB, false) == " " + ("B" + (", " + "C"));
    assert Pretty(whole, true) == "A" + (" " + ("B" + (", " + "C")));
    assert "A" + (" " + ("B" + (", " + "C"))) == "A B, C";
  }

  /** The decimal digit for `d`. */
  function Digit(d: nat): char
    requires d < 10
  {
    "0123456789"[d]
  }

  /** The value of a decimal digit character, -1 for any other. */
  function DigitValue(c: char): int {
    if '0' <= c <= '9' then c as int - '0' as int else -1
  }

  /** `${n}`: the decimal rendering of a natural number, without leading zeros. */
  function NatToString(n: nat): (s: string)
    ensures |s| >= 1 && (forall i :: 0 <= i < |s| ==> '0' <= s[i] <= '9')
    ensures |s| > 1 ==> s[0] != '0'
  {
    if n < 10 then [Digit(n)] else NatToString(n / 10) + [Digit(n % 10)]
  }

  /** Reading a string of decimal digits. */
  function ParseNat(s: string): int {
    if s == [] then 0 else ParseNat(s[..|s| - 1]) * 10 + DigitValue(s[|s| - 1])
  }

  /** Reading the decimal rendering of `n` gives back `n`. */
  lemma {:induction false} ParseNatToString(n: nat)
    ensures ParseNat(NatToString(n)) == n
  {
    var s := NatToString(n);
    if n >= 10 {
      var q, d := n / 10, n % 10;
      ParseNatToString(q);
      assert s == NatToString(q) + [Digit(d)];
      assert s[..|s| - 1] == NatToString(q);
      DigitValueOfDigit(d);
      assert ParseNat(s) == q * 10 + d;
    } else {
      DigitValueOfDigit(n);
      assert s[..0] == [];
    }
  }

  /** A digit reads back as its value. */
  lemma DigitValueOfDigit(d: nat)
    requires d < 10
    ensures DigitValue(Digit(d)) == d
  {
  }
}
