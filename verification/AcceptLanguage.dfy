/** Locale tags, the Accept-Language header printed for them and its parser. */
module AcceptLanguage {
  import opened Results

  datatype LocaleError = TooLong | InvalidLanguage | InvalidSubtag

  predicate IsAlphabetic(c: char) { 'a' <= c <= 'z' || 'A' <= c <= 'Z' }
  predicate IsAlphanumeric(c: char) { IsAlphabetic(c) || '0' <= c <= '9' }

  function Lower(c: char): char {
    if 'A' <= c <= 'Z' then c - 'A' + 'a' else c
  }

  /** Position of the first `c`, or the length. */
  function IndexOf(s: string, c: char): (i: nat)
    ensures i <= |s|
    ensures c !in s[..i]
    ensures i < |s| ==> s[i] == c
  {
    if s == "" || s[0] == c then 0 else 1 + IndexOf(s[1..], c)
  }

  /** The pieces between separators; a string without one is its own only piece. */
  function Split(s: string, sep: char): (pieces: seq<string>)
    ensures |pieces| > 0
    decreases |s|
  {
    var i := IndexOf(s, sep);
    if i == |s| then [s] else [s[..i]] + Split(s[i + 1..], sep)
  }

  lemma IndexOfUnique(s: string, c: char, i: nat)
    requires i <= |s| && c !in s[..i] && (i < |s| ==> s[i] == c)
    ensures IndexOf(s, c) == i
  {
    var j := IndexOf(s, c);
    assert j >= i by {
      assert forall k :: 0 <= k < i ==> s[..i][k] == s[k];
    }
    assert i >= j by {
      assert forall k :: 0 <= k < j ==> s[..j][k] == s[k];
    }
  }

  lemma SplitFirst(x: string, sep: char, rest: string)
    requires sep !in x
    ensures Split(x + [sep] + rest, sep) == [x] + Split(rest, sep)
    ensures Split(x, sep) == [x]
  {
    var s := x + [sep] + rest;
    assert s[..|x|] == x && s[|x| + 1..] == rest;
    IndexOfUnique(s, sep, |x|);
    assert x[..|x|] == x;
    IndexOfUnique(x, sep, |x|);
  }

  // ---------------------------------------------------------------------
  // Validation

  predicate LanguageOk(s: string) {
    2 <= |s| <= 3 && forall i :: 0 <= i < |s| ==> IsAlphabetic(s[i])
  }

  predicate SubtagOk(s: string) {
    2 <= |s| <= 8 && forall i :: 0 <= i < |s| ==> IsAlphanumeric(s[i])
  }

  /** A language and subtags, 35 characters at most. */
  predicate Valid(tag: string) {
    |tag| <= 35 && LanguageOk(Split(tag, '-')[0]) && forall k :: 1 <= k < |Split(tag, '-')| ==> SubtagOk(Split(tag, '-')[k])
  }

  method CheckAll(s: string, ok: char -> bool) returns (all: bool)
    ensures all <==> forall i :: 0 <= i < |s| ==> ok(s[i])
  {
    for i := 0 to |s|
      invariant forall k :: 0 <= k < i ==> ok(s[k])
    {
      if !ok(s[i]) {
        return false;
      }
    }
    return true;
  }

  /** Accepts exactly the valid tags; otherwise the first fault in reading order is named. */
  method ValidateLocale(tag: string) returns (r: Result<(), LocaleError>)
    ensures r.Ok? <==> Valid(tag)
    ensures r == Err(TooLong) <==> |tag| > 35
    ensures r == Err(InvalidLanguage) <==> |tag| <= 35 && !LanguageOk(Split(tag, '-')[0])
  {
    if |tag| > 35 {
      return Err(TooLong);
    }
    var pieces := Split(tag, '-');
    var language := pieces[0];
    if |language| < 2 || |language| > 3 {
      return Err(InvalidLanguage);
    }
    var alphabetic := CheckAll(language, c => IsAlphabetic(c));
    if !alphabetic {
      return Err(InvalidLanguage);
    }
    for k := 1 to |pieces|
      invariant forall j :: 1 <= j < k ==> SubtagOk(pieces[j])
    {
      var subtag := pieces[k];
      if |subtag| < 2 || |subtag| > 8 {
        return Err(InvalidSubtag);
      }
      var alphanumeric := CheckAll(subtag, c => IsAlphanumeric(c));
      if !alphanumeric {
        return Err(InvalidSubtag);
      }
    }
    return Ok(());
  }

  // ---------------------------------------------------------------------
  // Printing

  function Primary(tag: string): string { tag[..IndexOf(tag, '-')] }

  predicate EqualIgnoringCase(x: string, y: string) {
    |x| == |y| && forall i :: 0 <= i < |x| ==> Lower(x[i]) == Lower(y[i])
  }

  function Quality(q: nat): string
    requires q < 10
  {
    ";q=0." + [['0', '1', '2', '3', '4', '5', '6', '7', '8', '9'][q]]
  }

  /** The tag, its language alone, then English as a last resort, with falling q. */
  function Header(tag: string): string {
    var primary := Primary(tag);
    var alone := if |primary| != |tag| then "," + primary + Quality(9) else "";
    var english := if EqualIgnoringCase(primary, "en") then "" else ",en" + Quality(if |primary| != |tag| then 8 else 9);
    tag + alone + english
  }

  method WriteAll(buf: array<char>, at: nat, s: string) returns (end: nat)
    requires at + |s| <= buf.Length
    modifies buf
    ensures end == at + |s| && buf[..end] == old(buf[..at]) + s
  {
    for i := 0 to |s|
      invariant buf[..at + i] == old(buf[..at]) + s[..i]
    {
      ghost var before := buf[..at + i];
      buf[at + i] := s[i];
      assert buf[..at + i + 1] == before + [s[i]];
      assert s[..i + 1] == s[..i] + [s[i]];
    }
    assert s[..|s|] == s;
    end := at + |s|;
  }

  /** No write can run past the 64 bytes. */
  method AcceptLanguageFor(buf: array<char>, tag: string) returns (end: nat)
    requires buf.Length == 64 && Valid(tag)
    modifies buf
    ensures end <= 64 && buf[..end] == Header(tag)
  {
    hide Split, Quality, EqualIgnoringCase, SubtagOk;
    PrimaryShort(tag);
    var primary := Primary(tag);
    end := WriteAll(buf, 0, tag);
    assert buf[..end] == tag;
    var q := 9;
    ghost var alone := "";
    if |primary| != |tag| {
      alone := "," + primary + Quality(q);
      QualityLength(q);
      end := WriteAll(buf, end, "," + primary + Quality(q));
      q := q - 1;
    }
    assert buf[..end] == tag + alone;
    if !EqualIgnoringCase(primary, "en") {
      QualityLength(q);
      end := WriteAll(buf, end, ",en" + Quality(q));
    } else {
      assert tag + alone == tag + alone + "";
    }
  }

  lemma QualityLength(q: nat)
    requires q < 10
    ensures |Quality(q)| == 6
  {}

  lemma PrimaryShort(tag: string)
    requires Valid(tag)
    ensures LanguageOk(Primary(tag)) && |Primary(tag)| <= 3 && |tag| <= 35
  {
    if IndexOf(tag, '-') == |tag| {
      assert tag[..|tag|] == tag;
    }
  }

  // ---------------------------------------------------------------------
  // Parsing

  predicate Blank(c: char) { c == ' ' || c == '\t' }

  function TrimLeft(s: string): string {
    if s != "" && Blank(s[0]) then TrimLeft(s[1..]) else s
  }

  function TrimRight(s: string): string {
    if s != "" && Blank(s[|s| - 1]) then TrimRight(s[..|s| - 1]) else s
  }

  /** What an item lists: its text before any `;`, without surrounding blanks. */
  function TagOf(item: string): string { TrimRight(TrimLeft(item[..IndexOf(item, ';')])) }

  function TagsOf(items: seq<string>): seq<string> {
    if items == [] then []
    else (if TagOf(items[0]) == "" then [] else [TagOf(items[0])]) + TagsOf(items[1..])
  }

  function Languages(header: string): seq<string> { TagsOf(Split(header, ',')) }

  method ParseAcceptLanguage(header: string) returns (languages: seq<string>)
    ensures languages == Languages(header)
  {
    hide TagOf;
    languages := [];
    var items := Split(header, ',');
    for i := 0 to |items|
      invariant Languages(header) == languages + TagsOf(items[i..])
    {
      assert items[i..][1..] == items[i + 1..];
      var tag := TagOf(items[i]);
      if |tag| > 0 {
        assert languages + ([tag] + TagsOf(items[i + 1..])) == (languages + [tag]) + TagsOf(items[i + 1..]);
        languages := languages + [tag];
      }
    }
    assert items[|items|..] == [];
  }

  // ---------------------------------------------------------------------
  // The round trip

  /** Letters, digits and hyphens. */
  ghost predicate Plain(s: string) {
    forall i :: 0 <= i < |s| ==> IsAlphanumeric(s[i]) || s[i] == '-'
  }

  lemma PlainConcat(x: string, y: string)
    requires Plain(x) && Plain(y)
    ensures Plain(x + ['-'] + y)
  {}

  lemma {:induction false} PiecesPlain(s: string)
    requires forall k :: 0 <= k < |Split(s, '-')| ==> Plain(Split(s, '-')[k])
    ensures Plain(s)
    decreases |s|
  {
    var i := IndexOf(s, '-');
    assert Plain(Split(s, '-')[0]);
    if i == |s| {
      assert Split(s, '-')[0] == s;
    } else {
      var rest := Split(s[i + 1..], '-');
      assert forall k :: 0 <= k < |rest| ==> rest[k] == Split(s, '-')[k + 1];
      PiecesPlain(s[i + 1..]);
      PlainConcat(s[..i], s[i + 1..]);
      assert s == s[..i] + ['-'] + s[i + 1..];
    }
  }

  lemma ValidIsPlain(tag: string)
    requires Valid(tag)
    ensures Plain(tag) && Plain(Primary(tag)) && |Primary(tag)| >= 2
  {
    var pieces := Split(tag, '-');
    forall k | 0 <= k < |pieces|
      ensures Plain(pieces[k])
    {
      assert k == 0 || SubtagOk(pieces[k]);
    }
    PiecesPlain(tag);
    PrimaryShort(tag);
  }

  /** A plain tag is what its item lists, with or without a quality. */
  lemma PlainTag(tag: string, q: nat)
    requires Plain(tag) && tag != "" && q < 10
    ensures TagOf(tag) == tag && TagOf(tag + Quality(q)) == tag
    ensures ',' !in tag && ',' !in tag + Quality(q)
  {
    var item := tag + Quality(q);
    assert item[..|tag|] == tag && item[|tag|] == ';';
    IndexOfUnique(item, ';', |tag|);
    IndexOfUnique(tag, ';', |tag|);
    assert tag[..|tag|] == tag;
    assert forall i :: 0 <= i < |tag| ==> !Blank(tag[i]) && tag[i] != ',';
  }

  /** The tags `navigator.languages` reports for a locale. */
  function Expected(tag: string): seq<string> {
    var primary := Primary(tag);
    [tag] + (if primary != tag then [primary] else []) + (if EqualIgnoringCase(primary, "en") then [] else ["en"])
  }

  /** A list of two or three comma-free items reads back item by item. */
  lemma ListReads(x: string, y: string, z: string)
    requires ',' !in x && ',' !in y && ',' !in z
    ensures Languages(x) == TagsOf([x])
    ensures Languages(x + "," + y) == TagsOf([x, y])
    ensures Languages(x + "," + y + "," + z) == TagsOf([x, y, z])
  {
    hide IndexOf, TagsOf, Split;
    SplitFirst(x, ',', "");
    SplitFirst(x, ',', y);
    SplitFirst(x, ',', y + "," + z);
    SplitFirst(y, ',', z);
    SplitFirst(z, ',', "");
    assert x + "," + y + "," + z == x + [','] + (y + "," + z);
    assert y + "," + z == y + [','] + z;
    assert x + "," + y == x + [','] + y;
    assert [x] + [y] == [x, y];
    assert [x] + ([y] + [z]) == [x, y, z];
  }

  /** For every valid tag the printed header fits and parses back to the tag, its
      language if that is shorter, and English if the language is not English. */
  lemma RoundTrip(tag: string)
    requires Valid(tag)
    ensures |Header(tag)| <= 64
    ensures Languages(Header(tag)) == Expected(tag)
  {
    hide Valid, Plain, TagOf, TagsOf, EqualIgnoringCase, Quality, Split, Languages, IndexOf;
    PrimaryShort(tag);
    ValidIsPlain(tag);
    var primary := Primary(tag);
    PrefixSame(tag);
    QualityLength(8);
    QualityLength(9);
    EnglishPlain();
    PlainTag(tag, 9);
    PlainTag(primary, 9);
    PlainTag("en", 8);
    PlainTag("en", 9);
    var q := if |primary| != |tag| then 8 else 9;
    var english := "en" + Quality(q);
    var alone := primary + Quality(9);
    ListReads(tag, english, "");
    ListReads(tag, alone, english);
    if |primary| != |tag| {
      if EqualIgnoringCase(primary, "en") {
        assert Header(tag) == tag + "," + alone;
        Tags([tag, alone], [tag, primary]);
      } else {
        assert Header(tag) == tag + "," + alone + "," + english;
        Tags([tag, alone, english], [tag, primary, "en"]);
      }
    } else if EqualIgnoringCase(primary, "en") {
      assert Header(tag) == tag;
      Tags([tag], [tag]);
    } else {
      assert Header(tag) == tag + "," + english;
      Tags([tag, english], [tag, "en"]);
    }
  }

  lemma PrefixSame(tag: string)
    ensures |Primary(tag)| == |tag| <==> Primary(tag) == tag
  {}

  lemma EnglishPlain()
    ensures Plain("en")
  {}

  lemma {:induction false} Tags(items: seq<string>, tags: seq<string>)
    requires |items| == |tags| && forall i :: 0 <= i < |items| ==> TagOf(items[i]) == tags[i] != ""
    ensures TagsOf(items) == tags
  {
    hide TagOf;
    if items != [] {
      Tags(items[1..], tags[1..]);
      assert tags == [tags[0]] + tags[1..];
    }
  }

  // ---------------------------------------------------------------------
  // Spelled out

  lemma CharClasses(c: char)
    ensures IsAlphabetic(c) <==> 65 <= c as int <= 90 || 97 <= c as int <= 122
    ensures IsAlphanumeric(c) <==> 48 <= c as int <= 57 || 65 <= c as int <= 90 || 97 <= c as int <= 122
    ensures Blank(c) <==> c as int == 32 || c as int == 9
  {}

  /** A language and its subtags with hyphens between them. */
  ghost function Joined(language: string, subtags: seq<string>): string
    decreases |subtags|
  {
    if subtags == [] then language else language + ['-'] + Joined(subtags[0], subtags[1..])
  }

  lemma {:induction false} SplitJoined(language: string, subtags: seq<string>)
    requires '-' !in language && forall k :: 0 <= k < |subtags| ==> '-' !in subtags[k]
    ensures Split(Joined(language, subtags), '-') == [language] + subtags
    decreases |subtags|
  {
    hide Split;
    if subtags == [] {
      SplitFirst(language, '-', "");
    } else {
      SplitJoined(subtags[0], subtags[1..]);
      SplitFirst(language, '-', Joined(subtags[0], subtags[1..]));
      assert [subtags[0]] + subtags[1..] == subtags;
    }
  }

  ghost predicate AllLetters(s: string) {
    forall i :: 0 <= i < |s| ==> 65 <= s[i] as int <= 90 || 97 <= s[i] as int <= 122
  }

  ghost predicate AllLettersOrDigits(s: string) {
    forall i :: 0 <= i < |s| ==> 48 <= s[i] as int <= 57 || 65 <= s[i] as int <= 90 || 97 <= s[i] as int <= 122
  }

  /** Which tags are accepted: a language of two or three letters of either case, and subtags
      of two to eight letters or digits, 35 characters in all. */
  lemma ValidTags(language: string, subtags: seq<string>)
    requires '-' !in language && forall k :: 0 <= k < |subtags| ==> '-' !in subtags[k]
    ensures Valid(Joined(language, subtags)) <==>
      && |Joined(language, subtags)| <= 35
      && 2 <= |language| <= 3 && AllLetters(language)
      && forall k :: 0 <= k < |subtags| ==> 2 <= |subtags[k]| <= 8 && AllLettersOrDigits(subtags[k])
  {
    hide Split;
    SplitJoined(language, subtags);
    var pieces := [language] + subtags;
    forall k | 0 <= k < |subtags|
      ensures SubtagOk(pieces[k + 1]) <==> 2 <= |subtags[k]| <= 8 && AllLettersOrDigits(subtags[k])
    {
      assert pieces[k + 1] == subtags[k];
    }
    assert LanguageOk(pieces[0]) <==> 2 <= |language| <= 3 && AllLetters(language);
    hide SubtagOk, AllLettersOrDigits;
    assert forall k :: 1 <= k < |pieces| ==> pieces[k] == subtags[k - 1];
  }

  lemma EnglishIs(s: string)
    ensures EqualIgnoringCase(s, "en") <==> |s| == 2 && (s[0] == 'e' || s[0] == 'E') && (s[1] == 'n' || s[1] == 'N')
  {}

  /** What is printed for a language alone, and for one with subtags. */
  lemma HeaderSpelled(language: string, rest: string)
    requires '-' !in language
    ensures var english := |language| == 2 && (language[0] == 'e' || language[0] == 'E') && (language[1] == 'n' || language[1] == 'N');
      && Header(language) == language + (if english then "" else ",en;q=0.9")
      && Header(language + "-" + rest) ==
           language + "-" + rest + "," + language + ";q=0.9" + (if english then "" else ",en;q=0.8")
  {
    hide EqualIgnoringCase, Quality, IndexOf;
    EnglishIs(language);
    QualitySpelled();
    var tag := language + "-" + rest;
    assert tag[..|language|] == language && language[..|language|] == language;
    IndexOfUnique(tag, '-', |language|);
    IndexOfUnique(language, '-', |language|);
    assert Primary(tag) == language && Primary(language) == language;
    assert |language| != |tag|;
    assert ",en" + ";q=0.9" == ",en;q=0.9" && ",en" + ";q=0.8" == ",en;q=0.8";
  }

  lemma QualitySpelled()
    ensures Quality(9) == ";q=0.9" && Quality(8) == ";q=0.8"
  {}

  /** Blanks around an item and everything from its `;` on are not part of its tag. */
  lemma {:induction false} TagBetweenBlanks(before: string, tag: string, after: string, rest: string)
    requires AllBlank(before) && AllBlank(after) && ';' !in tag
    requires tag != "" && !Blank(tag[0]) && !Blank(tag[|tag| - 1])
    ensures TagOf(before + tag + after) == tag && TagOf(before + tag + after + ";" + rest) == tag
  {
    hide TrimLeft, TrimRight, IndexOf;
    var item := before + tag + after;
    assert item[..|item|] == item && (item + ";" + rest)[..|item|] == item;
    IndexOfUnique(item, ';', |item|);
    IndexOfUnique(item + ";" + rest, ';', |item|);
    assert item == before + (tag + after);
    TrimsLeft(before, tag + after);
    TrimsRight(tag, after);
  }

  ghost predicate AllBlank(s: string) {
    forall i :: 0 <= i < |s| ==> s[i] == ' ' || s[i] == '\t'
  }

  lemma {:induction false} TrimsLeft(before: string, s: string)
    requires AllBlank(before) && s != "" && !Blank(s[0])
    ensures TrimLeft(before + s) == s
    decreases |before|
  {
    if before == "" {
      assert before + s == s;
    } else {
      assert (before + s)[1..] == before[1..] + s;
      TrimsLeft(before[1..], s);
    }
  }

  lemma {:induction false} TrimsRight(s: string, after: string)
    requires AllBlank(after) && s != "" && !Blank(s[|s| - 1])
    ensures TrimRight(s + after) == s
    decreases |after|
  {
    if after == "" {
      assert s + after == s;
    } else {
      assert (s + after)[..|s + after| - 1] == s + after[..|after| - 1];
      TrimsRight(s, after[..|after| - 1]);
    }
  }

  /** A header lists what its items list, in order, and an item of blanks lists nothing. */
  lemma LanguagesInOrder(item: string, rest: string)
    requires ',' !in item
    ensures Languages(item + [','] + rest) == Languages(item) + Languages(rest)
    ensures Languages(item) == if TagOf(item) == "" then [] else [TagOf(item)]
    ensures AllBlank(item) ==> Languages(item) == []
  {
    hide TagOf, Split;
    SplitFirst(item, ',', rest);
    assert ([item] + Split(rest, ','))[1..] == Split(rest, ',') && [item][1..] == [];
    assert TagsOf([]) == [];
    if AllBlank(item) {
      BlankItem(item);
    }
  }

  lemma BlankItem(item: string)
    requires AllBlank(item)
    ensures TagOf(item) == ""
  {
    hide TrimLeft, TrimRight;
    IndexOfUnique(item, ';', |item|);
    assert item[..|item|] == item;
    TrimsAll(item);
  }

  lemma {:induction false} TrimsAll(s: string)
    requires AllBlank(s)
    ensures TrimLeft(s) == "" && TrimRight("") == ""
    decreases |s|
  {
    if s != "" {
      TrimsAll(s[1..]);
    }
  }

  /** Two tags as a browser sends them. */
  lemma Samples()
    ensures Valid("en-US") && Header("en-US") == "en-US,en;q=0.9"
    ensures Valid("fr-CA") && Header("fr-CA") == "fr-CA,fr;q=0.9,en;q=0.8"
  {
    hide Valid, Header;
    Sample("en", "US");
    Sample("fr", "CA");
    assert "en" + ['-'] + "US" == "en-US" && "en" + "-" + "US" == "en-US";
    assert "fr" + ['-'] + "CA" == "fr-CA" && "fr" + "-" + "CA" == "fr-CA";
    assert "en-US" + "," + "en" + ";q=0.9" + "" == "en-US,en;q=0.9";
    assert "fr-CA" + "," + "fr" + ";q=0.9" + ",en;q=0.8" == "fr-CA,fr;q=0.9,en;q=0.8";
    HeaderSpelled("en", "US");
    HeaderSpelled("fr", "CA");
  }

  lemma Sample(language: string, region: string)
    requires |language| == 2 && |region| == 2 && AllLetters(language) && AllLetters(region)
    ensures Valid(language + ['-'] + region)
  {
    hide Valid;
    assert '-' !in language && '-' !in region;
    assert [region][1..] == [];
    assert Joined(region, []) == region;
    assert Joined(language, [region]) == language + ['-'] + region;
    ValidTags(language, [region]);
  }
}
