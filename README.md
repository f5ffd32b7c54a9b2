# Sell-offer message builder, modelled in Dafny

The page builds a trade chat line such as `VK [Volt Prime] 150p [Ash]`. The
user types one offer line at a time, for example `Volt Prime 150`. Each line
is parsed into an entry `{name, price}` and pushed onto the list of current
entries, `currentItems`. A click on an entry's remove mark deletes that entry
from the list, and the reset button empties it. After every change the
outbound message is recomputed from the whole list. The message is `VK `
followed by one fragment per entry, `[name] pricep` or `[name]`, separated by
single spaces. An empty list gives an empty message.

The model has four modules:

- `JsText` (`js_text.dfy`): the JavaScript built-ins the page relies on,
  written out over `seq<char>`.
  - `String.prototype.trim`, with the ECMAScript WhiteSpace and
    LineTerminator set.
  - `split(' ')` and `join(' ')`.
  - The global `parseInt` with no radix, following section 19.2.5 of
    ECMAScript 2023. It skips leading white space, reads one optional sign,
    and takes radix 16 after a `0x`/`0X` prefix. It reads the longest run of
    digits and gives NaN, modelled as `None`, when there is none.
- `LineParser` (`line_parser.dfy`): the parse decision of `addItemToList`,
  as the pure function `Parse`. It is backed by lemmas:
  - what `Parse` does in each of its three cases;
  - that everything it produces is canonical;
  - that re-typing a canonical entry parses back to it.
- `MessageFormatter` (`message_formatter.dfy`): `updateFinalPreview` as the
  pure function `Format`, with lemmas about how the message grows.
- `ListState` (`list_state.dfy`): `currentItems` as the class `OfferList`.
  - Its field `items: seq<Entry>` is changed in place by `AddItem` (the push
    of `addItemToList`), `RemoveAt` (`splice(index, 1)`) and `Reset`.
  - `Valid()` says that every entry in the list is one the parser can
    produce. Each method keeps it.

Behaviour of `script.js` that the model keeps as it is:

- A line that is only a price, such as `150`, gives an entry with an empty
  name and the price `150`. Nothing falls back to using the line as the name
  (`ParseBarePriceExample`).
- `splice` with a negative index counts from the end of the list, and an
  index at or past the end removes nothing (`RemovedAt`).
- Item names are not checked against a catalog. The loaded names only fill
  the input's suggestion list.
- `parseInt` is the real one, so leading white space and a `0x` prefix are
  honoured (`"0x1F"` is a price). An integer prefix is enough: `"150abc"` and
  `"12.5"` are prices, and the price keeps the whole word.

## Model

| member | source | states |
|---|---|---|
| JsText.Trim | script.js:56 | `String.prototype.trim` (also used at lines 67 and 118): the leading white space is stripped, then the trailing white space. Its contract is stated as `TrimSpec`. |
| JsText.TrimSpec | script.js:56 | The trim is a slice of the input with only white space outside it. It neither starts nor ends with white space, and it is empty exactly when the input is all white space. |
| JsText.TrimIdempotent | script.js:56-57 | Trimming an already trimmed line changes nothing. |
| JsText.TrimAppendSpace | script.js:67 | A white-space character at the end of a string does not survive the trim. |
| JsText.TrimStartSuffix | script.js:56 | The leading-white-space strip keeps the longest suffix that does not start with white space. |
| JsText.TrimEndPrefix | script.js:56 | The trailing-white-space strip keeps the longest prefix that does not end with white space. |
| JsText.Split | script.js:59 | `split(' ')` gives at least one piece. No piece contains a space, and joining the pieces with single spaces gives the input back. |
| JsText.SplitJoin | script.js:59-67 | For a non-empty list of words without spaces, splitting their join gives the same words back, so `split` and `join` are inverse. |
| JsText.SplitLast | script.js:59-60 | The input is the other pieces joined, a space, and the last piece (just the last piece when there is one piece). |
| JsText.JoinAppend | script.js:115-121 | Joining a non-empty list with one more word adds a space and that word at the end. |
| JsText.Join | script.js:121 | `join(' ')`: no words give the empty string, and otherwise the first word starts the result. `JoinOne` and `JoinAppend` fix the value for every list. |
| JsText.JoinOne | script.js:121 | A single word joins to itself. |
| JsText.JoinPrefix | script.js:121 | The join of a list begins with the join of any non-empty prefix of it. |
| JsText.ValuePositive | script.js:65 | A run of digits denotes a number above zero exactly when one of its digits is not `0`. |
| JsText.ParseIntDecimal | script.js:65 | `parseInt` of a decimal numeral followed by a non-digit is the numeral's value (unless it is `0x`). |
| JsText.ParseIntHex | script.js:65 | `parseInt` of `0x`/`0X` and hexadecimal digits is their radix-16 value. |
| JsText.ParseIntNegative | script.js:65 | A leading minus sign never gives a number above zero. |
| JsText.ParseInt | script.js:65 | The global `parseInt` with no radix. The empty string gives NaN. Its value on other strings is stated by lemmas: `ParseIntPadded` skips white space, `ParseIntPlus`/`ParseIntMinus` read a sign, `ParseIntUnsigned` ties an unsigned string to `ParseUnsigned`, and `ParseIntDecimal`, `ParseIntHex` and `ParseUnsignedBareHex` give the numeral's value or NaN. |
| JsText.ParseIntUnsigned | script.js:65 | A string that starts with neither white space nor a sign reads as its unsigned numeral, so `ParseIntDecimal`, `ParseIntHex` and `ParseUnsignedBareHex` also fix the value after a sign. |
| JsText.ParseUnsignedBareHex | script.js:65 | `0x`/`0X` not followed by a hexadecimal digit is NaN. |
| JsText.ParseIntPadded | script.js:65 | Leading white space is skipped: white space in front of a string that does not start with white space leaves the result unchanged. |
| JsText.ParseIntPlus | script.js:65 | A leading `+` is dropped, and the rest is read as an unsigned numeral. |
| JsText.ParseIntMinus | script.js:65 | A leading `-` negates the unsigned reading of the rest, and NaN stays NaN. |
| JsText.ParseSigned | script.js:65 | One optional sign. A number needs a non-empty string, and the result is never positive after a `-` and never negative otherwise. |
| JsText.ParseUnsigned | script.js:65 | A number needs a decimal digit first (the `0` of a `0x` prefix counts) and is never negative. Through `ParseIntUnsigned`, the lemmas `ParseIntDecimal`, `ParseIntHex` and `ParseUnsignedBareHex` state the radix choice and the value. |
| JsText.ParseDigits | script.js:65 | The digit read gives a number exactly when the first character is a digit of the radix, and that number is never negative. |
| LineParser.PriceToken | script.js:65 | The test `!isNaN(parseInt(w)) && parseInt(w) > 0` on the last word. `PriceTokenDecimal` and the examples below state which words pass. |
| LineParser.Parse | script.js:55-70 | No entry exactly when the trimmed line is empty. Otherwise the name is trimmed, and a non-empty price is a word without spaces that `parseInt` reads as a number above zero. |
| LineParser.ParseLine | script.js:59-70 | On a trimmed line, the name comes out trimmed and a non-empty price is a positive, space-free word. |
| LineParser.ParseBlank | script.js:56-57 | A line made only of white space produces no entry. |
| LineParser.ParsePriced | script.js:59-67 | When the last word is a positive number, the price is exactly that word and the name is the trimmed text before it. |
| LineParser.ParseUnpriced | script.js:65-69 | When the last word is not a positive number, the name is the whole trimmed line and the price is empty. |
| LineParser.RejoinedHead | script.js:66-67 | The words left after the pop, rejoined with spaces and trimmed, are the trimmed text before the last word. |
| LineParser.LastWordUnique | script.js:60 | A line has at most one last word (with `LastWordOfSplit`, exactly one). |
| LineParser.LastWordOfSplit | script.js:59-60 | The last piece of the split is the line's last word. |
| LineParser.ParseIgnoresPadding | script.js:56 | White space around the line never changes the parse. |
| LineParser.ParseCanonical | script.js:55-72 | Every entry the parser produces is canonical: a trimmed name, and either a non-empty name whose last word is no price or a price word that would be read back as the price. |
| LineParser.ParseUnparse | script.js:59-69 | Typing a canonical entry as `name price` (or just its name, or just its price) parses back to the same entry. |
| LineParser.ParseNameOnly | script.js:68-69 | A trimmed line whose last word is no price is all name. |
| LineParser.ParseBarePrice | script.js:65-67 | A price word typed alone gives that price and an empty name. |
| LineParser.ParseNameAndPrice | script.js:59-67 | A trimmed name, a space and a price word parse into that name and that price. |
| LineParser.PriceTokenDecimal | script.js:65 | A word that starts with a decimal numeral is a price exactly when the numeral is not all zeros, whatever non-digit follows it (unless the numeral is `0` followed by `x` or `X`, which starts a hexadecimal numeral). |
| LineParser.PriceTokenDecimalExamples | script.js:65 | `"150"` and `"007"` are prices. |
| LineParser.PriceTokenPrefixExample | script.js:65-66 | `"150abc"` is a price, because only its integer prefix is read. |
| LineParser.PriceTokenFractionExample | script.js:65-66 | `"12.5"` is a price. |
| LineParser.PriceTokenPlusExample | script.js:65-66 | `"+150"` is a price: the sign is read past. |
| LineParser.PriceTokenHexExample | script.js:65 | `"0x1F"` is a price (read in radix 16). |
| LineParser.NotPriceTokenExamples | script.js:65 | `"0"`, `"-5"`, `"abc"` and `"0x"` are not prices. |
| LineParser.ParsePricedExample | script.js:59-67 | `"Volt Prime 150"` parses to name `"Volt Prime"` and price `"150"`. |
| LineParser.ParseNameOnlyExample | script.js:68-69 | `"Volt Prime"` parses to that name with no price. |
| LineParser.ParseZeroExample | script.js:65-69 | `"Volt Prime 0"` is all name: zero is no price. |
| LineParser.ParseNegativeExample | script.js:65-69 | `"Volt Prime -5"` is all name: a negative number is no price. |
| LineParser.ParseBarePriceExample | script.js:65-67 | `"150"` parses to an empty name and price `"150"`. |
| MessageFormatter.Fragment | script.js:115-118 | The `map` callback: `[name] pricep`, or `[name]` when the price is empty. `FragmentTrimmed` ties it to the template and its `.trim()`. |
| MessageFormatter.FragmentShape | script.js:116-118 | The bracketed name always starts the fragment, and the fragment ends in `p` exactly when the entry has a price. |
| MessageFormatter.Fragments | script.js:115-119 | One fragment per entry, in list order. |
| MessageFormatter.Format | script.js:109-122 | The message is empty exactly when the list is empty. Otherwise it starts with `VK `. |
| MessageFormatter.FragmentTrimmed | script.js:116-118 | The fragment is the trim of `[name]`, a space, and `pricep` (or nothing), so it is `[name] pricep` or `[name]`. |
| MessageFormatter.FragmentsConcat | script.js:115 | The fragments of two lists one after the other are the two lists' fragments one after the other. |
| MessageFormatter.FormatSingle | script.js:121 | One entry gives `VK ` and its fragment. |
| MessageFormatter.FormatAppend | script.js:115-121 | Adding an entry at the end of a non-empty list adds a space and its fragment at the end of the message. |
| MessageFormatter.FormatPrefix | script.js:115-121 | The message for a list begins with the message for any non-empty prefix of it. |
| MessageFormatter.FormatExample | script.js:109-122 | `[{A, "10"}, {B, ""}]` gives `VK [A] 10p [B]`. |
| ListState.RemovedAt | script.js:129-130 | `splice(start, 1)` at an index in range deletes exactly that entry and keeps the others in order. A negative start counts from the end, an index at or past the end changes nothing, and no entry is ever added. |
| ListState.AppendParsed | script.js:72 | Pushing a parsed entry keeps every entry of the list canonical. |
| ListState.OfferList.constructor | script.js:4 | The list starts empty, and so does the message. |
| ListState.OfferList.EntriesRetype | script.js:55-72 | Every entry of a valid list, typed back as a line, parses to that same entry. |
| ListState.OfferList.Preview | script.js:109-121 | The shown message is empty exactly when the list is empty. |
| ListState.OfferList.AddItem | script.js:55-75 | A blank line leaves the list alone. Otherwise the parsed entry goes last and every earlier entry stays unchanged. The message becomes `VK ` and the new fragment for a first entry, or the old message, a space and the new fragment. The list stays canonical. |
| ListState.OfferList.RemoveAt | script.js:127-133 | The list becomes the `splice(index, 1)` of the old list and stays canonical. |
| ListState.OfferList.Reset | script.js:157-161 | The list and the message become empty. |

## Left out

- `initDatabase` (loading the item names and filling the input's suggestion
  list) is network and DOM work. It has no rule on the names, so it is not
  modelled.
- The entry "pills" of `updateCurrentListDisplay` are DOM output only.
- `copyMessage` (the clipboard write and the timed button label) uses
  asynchronous browser APIs.
- Event wiring and the text field are left out. Reading the field becomes
  the `input` parameter of `AddItem`. Clearing it after an add or a reset is
  not modelled.
- ListState.OfferList.RemoveAt: a NaN index is not modelled. `splice` treats
  NaN as 0, and the page only ever passes the rendered index of an entry.
- Strings are sequences of Unicode scalar values, while JavaScript strings
  are UTF-16 code units. Text outside the Basic Multilingual Plane is
  therefore indexed differently, though `trim`, `split(' ')` and `parseInt`
  never split such a character.
- JsText.ParseInt: gives the exact integer, where JavaScript converts the
  digits to a floating-point Number. The rounding can turn a huge value into
  Infinity but never changes its sign, so the "above zero" test on the price
  word is the same.
