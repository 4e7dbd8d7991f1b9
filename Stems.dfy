/** Decoding of the file-name convention of the manual tree: the first
    character of a stem selects the kind of entry, the rest (from the first
    alphabetic character on) carries its display name. */
module Stems {

  /** The three kinds of manual entries. */
  datatype ManualItem = Regular | Tool | Texture

  /** `impl From<char> for ManualItem`: a case-sensitive comparison. */
  function FromChar(c: char): (r: ManualItem)
    ensures r == Tool <==> (c == 'S' || c == 'T')
    ensures r == Texture <==> c == 'X'
    ensures r == Regular <==> (c != 'S' && c != 'T' && c != 'X')
  {
    if c == 'S' || c == 'T' then Tool
    else if c == 'X' then Texture
    else Regular
  }

  /** The lower-case kind characters are not recognised. */
  lemma LowerCaseIsRegular()
    ensures FromChar('s') == Regular && FromChar('t') == Regular && FromChar('x') == Regular
  {
  }

  /** `char::is_alphabetic`, restricted to the ASCII letters. */
  predicate IsAlphabetic(c: char)
  {
    ('a' <= c <= 'z') || ('A' <= c <= 'Z')
  }

  /** `char::to_ascii_uppercase`: only 'a'..'z' change. */
  function ToAsciiUppercase(c: char): (r: char)
    ensures 'a' <= c <= 'z' ==> 'A' <= r <= 'Z' && r as int == c as int - 32
    ensures !('a' <= c <= 'z') ==> r == c
    ensures IsAlphabetic(r) == IsAlphabetic(c)
  {
    if 'a' <= c <= 'z' then (c as int - 32) as char else c
  }

  /** `NextValue::next_value`: the head of a non-empty sequence and what is left. */
  function NextValue<T>(s: seq<T>): (r: (T, seq<T>))
    requires |s| > 0
    ensures [r.0] + r.1 == s
  {
    (s[0], s[1..])
  }

  /** `skip_while(|c| !c.is_alphabetic())`. */
  function SkipNonAlphabetic(s: string): string
  {
    if s == [] || IsAlphabetic(s[0]) then s else SkipNonAlphabetic(s[1..])
  }

  /** What is skipped is a maximal non-alphabetic prefix: the result is a
      suffix, everything before it is non-alphabetic, and it is empty or
      starts with a letter. */
  lemma {:induction false} SkipNonAlphabeticSpec(s: string)
    ensures |SkipNonAlphabetic(s)| <= |s|
    ensures SkipNonAlphabetic(s) == s[|s| - |SkipNonAlphabetic(s)|..]
    ensures forall k :: 0 <= k < |s| - |SkipNonAlphabetic(s)| ==> !IsAlphabetic(s[k])
    ensures SkipNonAlphabetic(s) == [] || IsAlphabetic(SkipNonAlphabetic(s)[0])
  {
    if s != [] && !IsAlphabetic(s[0]) {
      SkipNonAlphabeticSpec(s[1..]);
      assert forall k :: 1 <= k < |s| ==> s[k] == s[1..][k - 1];
    }
  }

  /** `stem_chars`: consume the first character as the kind, then skip to the
      first alphabetic character.  The source panics on an empty stem. */
  function StemChars(stem: string): (string, ManualItem)
    requires |stem| > 0
  {
    var (first, chars) := NextValue(stem);
    (SkipNonAlphabetic(chars), FromChar(first))
  }

  /** The kind comes from the first character alone; the remainder is what
      follows it once the non-alphabetic characters after it are dropped. */
  lemma StemCharsSpec(stem: string)
    requires |stem| > 0
    ensures StemChars(stem).1 == FromChar(stem[0])
    ensures var rem := StemChars(stem).0;
      1 <= |stem| - |rem| && rem == stem[|stem| - |rem|..] &&
      (forall k :: 1 <= k < |stem| - |rem| ==> !IsAlphabetic(stem[k])) &&
      (rem == [] || IsAlphabetic(rem[0]))
  {
    var rem := StemChars(stem).0;
    SkipNonAlphabeticSpec(stem[1..]);
    assert |stem| - |rem| == 1 + (|stem[1..]| - |rem|);
    forall k | 1 <= k < |stem| - |rem| ensures !IsAlphabetic(stem[k]) {
      assert stem[k] == stem[1..][k - 1];
    }
  }

  /** The remainder of a stem after its kind character and the skipped
      prefix.  It is also the display name of an item, passed on unchanged. */
  function Remainder(stem: string): string
    requires |stem| > 0
  {
    StemChars(stem).0
  }

  /** A section stem the source can decode without panicking: it has an
      alphabetic character somewhere after position 0. */
  predicate HasTitle(stem: string)
  {
    |stem| > 0 && Remainder(stem) != []
  }

  lemma {:induction false} SkipNonAlphabeticEmpty(s: string)
    ensures SkipNonAlphabetic(s) == [] <==> forall k :: 0 <= k < |s| ==> !IsAlphabetic(s[k])
  {
    if s != [] && !IsAlphabetic(s[0]) {
      SkipNonAlphabeticEmpty(s[1..]);
      assert forall k :: 1 <= k < |s| ==> s[k] == s[1..][k - 1];
    }
  }

  /** The section stem can be decoded exactly when it has an alphabetic
      character after its first one. */
  lemma HasTitleIff(stem: string)
    requires |stem| > 0
    ensures HasTitle(stem) <==> exists k :: 1 <= k < |stem| && IsAlphabetic(stem[k])
  {
    SkipNonAlphabeticEmpty(stem[1..]);
    StemCharsSpec(stem);
    if !HasTitle(stem) {
      forall k | 1 <= k < |stem| ensures !IsAlphabetic(stem[k]) {
        assert stem[k] == stem[1..][k - 1];
      }
    } else {
      var k := |stem| - |Remainder(stem)|;
      assert IsAlphabetic(stem[k]);
    }
  }

  /** Every character after the first: '_' becomes ' ', the rest is copied. */
  function SpaceFor(c: char): char
  {
    if c == '_' then ' ' else c
  }

  /** The display name of a section built from the remainder of its stem. */
  function SectionTitle(rem: string): (r: string)
    requires |rem| > 0
  {
    [ToAsciiUppercase(rem[0])] + seq(|rem| - 1, k requires 0 <= k < |rem| - 1 => SpaceFor(rem[k + 1]))
  }

  /** The section title of a stem. */
  function SectionDisplayName(stem: string): string
    requires HasTitle(stem)
  {
    SectionTitle(Remainder(stem))
  }

  /** The name-building loop of `process_manual`: take the first remaining
      character upper-cased, then push every further character with '_'
      turned into ' '. */
  method DecodeSectionName(rem: string) returns (name: string)
    requires |rem| > 0
    ensures |name| == |rem|
    ensures name[0] == ToAsciiUppercase(rem[0])
    ensures forall k :: 1 <= k < |rem| ==> name[k] == (if rem[k] == '_' then ' ' else rem[k])
    ensures name == SectionTitle(rem)
  {
    var (first, chars) := NextValue(rem);
    name := [ToAsciiUppercase(first)];
    var n := 0;
    while n < |chars|
      invariant 0 <= n <= |chars|
      invariant |name| == n + 1
      invariant name[0] == ToAsciiUppercase(rem[0])
      invariant forall k :: 1 <= k <= n ==> name[k] == SpaceFor(rem[k])
    {
      var c := chars[n];
      if c == '_' {
        c := ' ';
      }
      name := name + [c];
      n := n + 1;
    }
  }

  /** What a section title promises about the remainder it comes from. */
  lemma SectionTitleSpec(rem: string)
    requires |rem| > 0
    ensures |SectionTitle(rem)| == |rem|
    ensures SectionTitle(rem)[0] == ToAsciiUppercase(rem[0])
    ensures forall k :: 1 <= k < |rem| ==> SectionTitle(rem)[k] == (if rem[k] == '_' then ' ' else rem[k])
    ensures forall k :: 1 <= k < |rem| ==> SectionTitle(rem)[k] != '_'
  {
  }

  /** The section display name and the item display name of the same stem
      differ only in the capital and the underscores. */
  lemma SectionVersusItem(stem: string)
    requires HasTitle(stem)
    ensures |SectionDisplayName(stem)| == |Remainder(stem)|
    ensures SectionDisplayName(stem)[0] == ToAsciiUppercase(Remainder(stem)[0])
    ensures forall k :: 1 <= k < |Remainder(stem)| ==>
      SectionDisplayName(stem)[k] == SpaceFor(Remainder(stem)[k])
  {
  }

  /** Worked decodings of the kind character. */
  lemma KindExamples()
    ensures StemChars("Sfoo") == ("foo", Tool)
    ensures StemChars("Tbar") == ("bar", Tool)
    ensures StemChars("Xtex") == ("tex", Texture)
  {
    assert NextValue("Sfoo") == ('S', "foo");
    assert "foo"[0] == 'f';
    assert NextValue("Tbar") == ('T', "bar");
    assert "bar"[0] == 'b';
    assert NextValue("Xtex") == ('X', "tex");
    assert "tex"[0] == 't';
  }

  /** The first character is consumed as the kind even when it is a letter. */
  lemma SectionExample()
    ensures HasTitle("A_one") && SectionDisplayName("A_one") == "One"
  {
    assert NextValue("A_one") == ('A', "_one");
    assert "_one"[1..] == "one";
    assert SkipNonAlphabetic("one") == "one";
    assert Remainder("A_one") == "one";
  }

  /** An item keeps its remainder as it is; a section with the same stem
      is capitalised and loses its underscores. */
  lemma ItemExample()
    ensures Remainder("1_my_item") == "my_item"
    ensures SectionDisplayName("1_my_item") == "My item"
  {
    assert NextValue("1_my_item") == ('1', "_my_item");
    assert "_my_item"[1..] == "my_item";
    assert SkipNonAlphabetic("my_item") == "my_item";
    assert Remainder("1_my_item") == "my_item";
  }
}
