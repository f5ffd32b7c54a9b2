/**
 The line parser of `addItemToList`: one typed line such as
 `"Volt Prime 150"` becomes an entry `{name, price}`. The last space-separated
 word is the price when `parseInt` reads it as a number above zero, and the
 price keeps that word's exact text; otherwise the whole trimmed line is the
 name and the price is empty.
 */
module LineParser {
  import opened JsText

  /** One line of the offer; `price` is empty when none was given. */
  datatype Entry = Entry(name: string, price: string)

  /** `!isNaN(parseInt(w)) && parseInt(w) > 0`: the word counts as a price. */
  predicate PriceToken(w: string) {
    var n := ParseInt(w);
    n.Some? && n.value > 0
  }

  /** `w` is the last word of `raw`: a suffix without spaces that starts the
      string or follows a space. */
  ghost predicate IsLastWord(raw: string, w: string) {
    && |w| <= |raw|
    && raw[|raw| - |w|..] == w
    && ' ' !in w
    && (|w| == |raw| || raw[|raw| - |w| - 1] == ' ')
  }

  /** The parse of a submitted line; `None` when the trimmed line is empty
      and nothing is to be added. */
  function Parse(input: string): (r: Option<Entry>)
    ensures r.None? <==> Trim(input) == []
    ensures r.Some? ==> Trim(r.value.name) == r.value.name
    ensures r.Some? && r.value.price != [] ==> PriceToken(r.value.price) && ' ' !in r.value.price
  {
    var raw := Trim(input);
    TrimIdempotent(input);
    if raw == [] then None else Some(ParseLine(raw))
  }

  /** The decision on a trimmed, non-empty line: price from the last word, or
      the whole line as the name. */
  function ParseLine(raw: string): (e: Entry)
    requires Trim(raw) == raw
    ensures Trim(e.name) == e.name
    ensures e.price != [] ==> PriceToken(e.price) && ' ' !in e.price
  {
    var words := Split(raw);
    var lastWord := words[|words| - 1];
    if PriceToken(lastWord) then
      var name := Trim(Join(words[..|words| - 1]));
      TrimIdempotent(Join(words[..|words| - 1]));
      Entry(name, lastWord)
    else
      Entry(raw, [])
  }

  /** No space lies inside the last word. */
  lemma NoSpaceInLastWord(raw: string, w: string)
    requires IsLastWord(raw, w)
    ensures forall p :: |raw| - |w| <= p < |raw| ==> raw[p] != ' '
  {
    forall p | |raw| - |w| <= p < |raw| ensures raw[p] != ' ' {
      assert raw[p] == w[p - (|raw| - |w|)];
    }
  }

  /** A line has at most one last word (with `LastWordOfSplit`, exactly
      one). */
  lemma LastWordUnique(raw: string, w1: string, w2: string)
    requires IsLastWord(raw, w1) && IsLastWord(raw, w2)
    ensures w1 == w2
  {
    NoSpaceInLastWord(raw, w1);
    NoSpaceInLastWord(raw, w2);
    assert |w1| == |w2|;
  }

  /** The word the parser inspects, the last piece of `split(' ')`, is the
      last word of the line. */
  lemma LastWordOfSplit(raw: string)
    ensures var ws := Split(raw); IsLastWord(raw, ws[|ws| - 1])
  {
    SplitLast(raw);
  }

  /** A line made only of white space adds nothing. */
  lemma ParseBlank(input: string)
    requires forall i :: 0 <= i < |input| ==> IsWhiteSpace(input[i])
    ensures Parse(input) == None
  {
    TrimSpec(input);
  }

  /** A positive last word becomes the price, with its text unchanged, and
      the trimmed text before it becomes the name. */
  lemma ParsePriced(input: string, w: string)
    requires Trim(input) != []
    requires IsLastWord(Trim(input), w) && PriceToken(w)
    ensures var raw := Trim(input);
            Parse(input) == Some(Entry(Trim(raw[..|raw| - |w|]), w))
  {
    var raw := Trim(input);
    TrimIdempotent(input);
    assert Parse(input) == Some(ParseLine(raw));
    ParseLinePriced(raw, w);
  }

  lemma ParseLinePriced(raw: string, w: string)
    requires Trim(raw) == raw
    requires IsLastWord(raw, w) && PriceToken(w)
    ensures ParseLine(raw) == Entry(Trim(raw[..|raw| - |w|]), w)
  {
    SplitLastWord(raw, w);
    RejoinedHead(raw, w);
  }

  /** The last piece of the split is the last word. */
  lemma SplitLastWord(raw: string, w: string)
    requires IsLastWord(raw, w)
    ensures var ws := Split(raw); ws[|ws| - 1] == w
  {
    var ws := Split(raw);
    LastWordOfSplit(raw);
    LastWordUnique(raw, ws[|ws| - 1], w);
  }

  /** The other pieces, rejoined and trimmed, are the trimmed text before
      the last word. */
  lemma RejoinedHead(raw: string, w: string)
    requires IsLastWord(raw, w)
    ensures var ws := Split(raw);
            Trim(Join(ws[..|ws| - 1])) == Trim(raw[..|raw| - |w|])
  {
    SplitLastWord(raw, w);
    var ws := Split(raw);
    var n := |ws|;
    var j := Join(ws[..n - 1]);
    SplitLast(raw);
    var head := if n == 1 then [] else j + [' '];
    assert raw == head + w;
    assert raw[..|raw| - |w|] == head;
    if n > 1 {
      TrimAppendSpace(j, ' ');
    }
  }

  /** A last word that is not a positive number leaves the whole trimmed
      line as the name, with no price. */
  lemma ParseUnpriced(input: string, w: string)
    requires Trim(input) != []
    requires IsLastWord(Trim(input), w) && !PriceToken(w)
    ensures Parse(input) == Some(Entry(Trim(input), []))
  {
    var ws := Split(Trim(input));
    LastWordOfSplit(Trim(input));
    LastWordUnique(Trim(input), ws[|ws| - 1], w);
  }

  /** Surrounding white space never changes the parse. */
  lemma ParseIgnoresPadding(input: string)
    ensures Parse(Trim(input)) == Parse(input)
  {
    TrimIdempotent(input);
  }

  /** What the parser can produce: a trimmed name, and either a non-empty
      name whose last word is no price, or a price word without spaces and
      white space at its end (and at its start when the name is empty). */
  ghost predicate Canonical(e: Entry) {
    && Trim(e.name) == e.name
    && if e.price == [] then
         e.name != [] && forall w :: IsLastWord(e.name, w) ==> !PriceToken(w)
       else
         && PriceToken(e.price) && ' ' !in e.price
         && !IsWhiteSpace(e.price[|e.price| - 1])
         && (e.name == [] ==> !IsWhiteSpace(e.price[0]))
  }

  /** The line an entry is typed as: the name, a space, the price. */
  function Unparse(e: Entry): string {
    if e.price == [] then e.name
    else if e.name == [] then e.price
    else e.name + " " + e.price
  }

  /** Every entry the parser produces is canonical. */
  lemma ParseCanonical(input: string)
    requires Parse(input).Some?
    ensures Canonical(Parse(input).value)
  {
    TrimIdempotent(input);
    ParseLineCanonical(Trim(input));
  }

  lemma ParseLineCanonical(raw: string)
    requires raw != [] && Trim(raw) == raw
    ensures Canonical(ParseLine(raw))
  {
    var ws := Split(raw);
    var last := ws[|ws| - 1];
    LastWordOfSplit(raw);
    if PriceToken(last) {
      ParseLinePriced(raw, last);
      PricedCanonical(raw, last);
    } else {
      assert ParseLine(raw) == Entry(raw, []);
      UnpricedCanonical(raw, last);
    }
  }

  /** The unpriced entry taken from a trimmed line is canonical. */
  lemma UnpricedCanonical(raw: string, last: string)
    requires raw != [] && Trim(raw) == raw
    requires IsLastWord(raw, last) && !PriceToken(last)
    ensures Canonical(Entry(raw, []))
  {
    forall w | IsLastWord(raw, w) ensures !PriceToken(w) {
      LastWordUnique(raw, w, last);
    }
  }

  /** The priced entry taken from a trimmed line is canonical. */
  lemma PricedCanonical(raw: string, last: string)
    requires raw != [] && Trim(raw) == raw
    requires IsLastWord(raw, last) && PriceToken(last)
    ensures Canonical(Entry(Trim(raw[..|raw| - |last|]), last))
  {
    TrimSpec(raw);
    assert last[|last| - 1] == raw[|raw| - 1];
    var head := raw[..|raw| - |last|];
    TrimIdempotent(head);
    if head != [] {
      assert head[0] == raw[0];
      TrimSpec(head);
    } else {
      assert last[0] == raw[0];
    }
  }

  /** Retyping a canonical entry parses back to the same entry. */
  lemma ParseUnparse(e: Entry)
    requires Canonical(e)
    ensures Parse(Unparse(e)) == Some(e)
  {
    if e.price == [] {
      ParseNameOnly(e.name);
    } else if e.name == [] {
      ParseBarePrice(e.price);
    } else {
      ParseNameAndPrice(e.name, e.price);
    }
  }

  /** A trimmed line whose last word is no price is all name. */
  lemma ParseNameOnly(name: string)
    requires name != [] && Trim(name) == name
    requires forall w :: IsLastWord(name, w) ==> !PriceToken(w)
    ensures Parse(name) == Some(Entry(name, []))
  {
    var ws := Split(name);
    LastWordOfSplit(name);
    ParseUnpriced(name, ws[|ws| - 1]);
  }

  /** A price word alone is a price with an empty name. */
  lemma ParseBarePrice(price: string)
    requires PriceToken(price) && ' ' !in price
    requires !IsWhiteSpace(price[0]) && !IsWhiteSpace(price[|price| - 1])
    ensures Parse(price) == Some(Entry([], price))
  {
    TrimKeeps(price);
    ParsePriced(price, price);
    assert price[..0] == [];
    TrimKeeps([]);
  }

  /** A trimmed name, a space and a price word parse into that name and
      that price. */
  lemma ParseNameAndPrice(name: string, price: string)
    requires name != [] && Trim(name) == name
    requires PriceToken(price) && ' ' !in price && !IsWhiteSpace(price[|price| - 1])
    ensures Parse(name + " " + price) == Some(Entry(name, price))
  {
    var s := name + " " + price;
    TrimSpec(name);
    assert s[0] == name[0] && s[|s| - 1] == price[|price| - 1];
    TrimKeeps(s);
    assert s[..|s| - |price|] == name + [' '];
    assert IsLastWord(s, price);
    ParsePriced(s, price);
    TrimAppendSpace(name, ' ');
  }

  /** A word that begins with a decimal numeral is a price exactly when the
      numeral is not all zeros; whatever follows the digits is ignored, unless
      the numeral is `0` followed by `x` or `X`, which starts a hexadecimal
      numeral instead. */
  lemma PriceTokenDecimal(d: string, rest: string)
    requires d != [] && forall i :: 0 <= i < |d| ==> IsDecimalDigit(d[i])
    requires rest == [] || !IsDecimalDigit(rest[0])
    requires !(d == "0" && rest != [] && (rest[0] == 'x' || rest[0] == 'X'))
    ensures PriceToken(d + rest) <==> exists i :: 0 <= i < |d| && d[i] != '0'
  {
    ParseIntDecimal(d, rest);
    ValuePositive(d, 10);
  }

  /** `"150"` and `"007"` are prices. */
  lemma PriceTokenDecimalExamples()
    ensures PriceToken("150") && PriceToken("007")
  {
    assert PriceToken("150") by {
      assert "150" == "150" + [];
      PriceTokenDecimal("150", []);
      assert "150"[0] != '0';
    }
    assert PriceToken("007") by {
      assert "007" == "007" + [];
      PriceTokenDecimal("007", []);
      assert "007"[2] != '0';
    }
  }

  /** A positive integer prefix is enough: `parseInt` stops at the first
      character that is not a digit. */
  lemma PriceTokenPrefixExample()
    ensures PriceToken("150abc")
  {
    assert "150abc" == "150" + "abc";
    PriceTokenDecimal("150", "abc");
    assert "150"[0] != '0';
  }

  /** A decimal point ends the numeral: `"12.5"` is read as 12. */
  lemma PriceTokenFractionExample()
    ensures PriceToken("12.5")
  {
    assert "12.5" == "12" + ".5";
    PriceTokenDecimal("12", ".5");
    assert "12"[0] != '0';
  }

  /** A `+` sign is read past: `"+150"` is a price, and the price keeps the
      sign. */
  lemma PriceTokenPlusExample()
    ensures PriceToken("+150")
  {
    assert "+150" == "+" + "150" by {}
    assert "150" == "150" + [] by {}
    ParseIntPlus("150");
    ParseIntUnsigned("150");
    ParseIntDecimal("150", []);
    ValuePositive("150", 10);
    assert "150"[0] != '0';
  }

  /** A `0x` prefix is read in radix 16. */
  lemma PriceTokenHexExample()
    ensures PriceToken("0x1F")
  {
    ParseIntHex('x', "1F", []);
    ValuePositive("1F", 16);
  }

  /** Zero, negative numbers and words without a numeral are not prices. */
  lemma NotPriceTokenExamples()
    ensures !PriceToken("0") && !PriceToken("-5") && !PriceToken("abc") && !PriceToken("0x")
  {
    assert !PriceToken("0") by {
      assert "0" == "0" + [];
      PriceTokenDecimal("0", []);
    }
    assert !PriceToken("-5") by { ParseIntNegative("5"); }
  }

  /** `"Volt Prime 150"` is the item `"Volt Prime"` offered at `"150"`. */
  lemma ParsePricedExample()
    ensures Parse("Volt Prime 150") == Some(Entry("Volt Prime", "150"))
  {
    assert "Volt Prime" + " " + "150" == "Volt Prime 150" by {}
    assert Trim("Volt Prime") == "Volt Prime" by { TrimKeeps("Volt Prime"); }
    assert PriceToken("150") by { PriceTokenDecimalExamples(); }
    ParseNameAndPrice("Volt Prime", "150");
  }

  /** Without a number at the end the whole line is the name. */
  lemma ParseNameOnlyExample()
    ensures Parse("Volt Prime") == Some(Entry("Volt Prime", ""))
  {
    var raw := "Volt Prime";
    TrimKeeps(raw);
    assert raw[5..] == "Prime" && raw[4] == ' ';
    assert !PriceToken("Prime");
    ParseUnpriced(raw, "Prime");
  }

  /** A trailing zero stays part of the name. */
  lemma ParseZeroExample()
    ensures Parse("Volt Prime 0") == Some(Entry("Volt Prime 0", ""))
  {
    var raw := "Volt Prime 0";
    TrimKeeps(raw);
    assert raw[11..] == "0" && raw[10] == ' ';
    NotPriceTokenExamples();
    ParseUnpriced(raw, "0");
  }

  /** A trailing negative number stays part of the name. */
  lemma ParseNegativeExample()
    ensures Parse("Volt Prime -5") == Some(Entry("Volt Prime -5", ""))
  {
    var raw := "Volt Prime -5";
    TrimKeeps(raw);
    assert raw[11..] == "-5" && raw[10] == ' ';
    NotPriceTokenExamples();
    ParseUnpriced(raw, "-5");
  }

  /** A line that is only a price gives an entry with an empty name; the
      parser does not fall back to using the line as the name. */
  lemma ParseBarePriceExample()
    ensures Parse("150") == Some(Entry("", "150"))
  {
    TrimKeeps("150");
    PriceTokenDecimalExamples();
    ParsePriced("150", "150");
    assert "150"[..0] == [];
    TrimKeeps([]);
  }
}
