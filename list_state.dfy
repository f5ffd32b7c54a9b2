/**
 The offer list of the page, `currentItems`: entries in the order they
 were added, grown by `addItemToList`, shrunk by a click on an entry's remove
 mark and emptied by the reset button. The message shown below the list is
 recomputed from the whole list after every change.
 */
module ListState {
  import opened JsText
  import opened LineParser
  import opened MessageFormatter

  /** `Array.prototype.splice(start, 1)` on the list: a negative start counts
      from the end (and is clamped at 0), a start at or past the end removes
      nothing. */
  function RemovedAt<T>(s: seq<T>, start: int): (r: seq<T>)
    ensures 0 <= start < |s| ==>
              && |r| == |s| - 1
              && (forall j :: 0 <= j < start ==> r[j] == s[j])
              && (forall j :: start <= j < |r| ==> r[j] == s[j + 1])
    ensures start >= |s| ==> r == s
    ensures -|s| <= start < 0 ==> r == s[..|s| + start] + s[|s| + start + 1..]
    ensures start < -|s| && s != [] ==> r == s[1..]
    ensures multiset(r) <= multiset(s)
  {
    var k := if start < 0 then (if |s| + start < 0 then 0 else |s| + start)
             else (if start > |s| then |s| else start);
    if k < |s| then
      assert s == s[..k] + [s[k]] + s[k + 1..];
      s[..k] + s[k + 1..]
    else s
  }

  /** Appending what the parser produced keeps every entry canonical. */
  lemma AppendParsed(items: seq<Entry>, input: string)
    requires forall i :: 0 <= i < |items| ==> Canonical(items[i])
    requires Trim(input) != []
    ensures var after := items + [Parse(input).value];
            forall i :: 0 <= i < |after| ==> Canonical(after[i])
  {
    ParseCanonical(input);
  }

  class OfferList {
    /** `currentItems`. */
    var items: seq<Entry>

    /** Every entry in the list came from the line parser. */
    ghost predicate Valid()
      reads this
    {
      forall i :: 0 <= i < |items| ==> Canonical(items[i])
    }

    /** Every entry of a valid list, typed back as a line, parses to itself:
        the list holds nothing the input could not have produced. */
    lemma EntriesRetype()
      requires Valid()
      ensures forall i :: 0 <= i < |items| ==> Parse(Unparse(items[i])) == Some(items[i])
    {
      forall i | 0 <= i < |items|
        ensures Parse(Unparse(items[i])) == Some(items[i])
      {
        ParseUnparse(items[i]);
      }
    }

    /** The message the preview shows for the current list. */
    function Preview(): (m: string)
      reads this
      ensures m == [] <==> items == []
    {
      Format(items)
    }

    /** The page starts with an empty list and an empty message. */
    constructor ()
      ensures Valid() && items == [] && Preview() == []
    {
      items := [];
    }

    /** `addItemToList`: a blank line is ignored; otherwise the parsed entry
        is pushed at the end and nothing before it changes. */
    method AddItem(input: string)
      requires Valid()
      modifies this
      ensures Valid()
      ensures Trim(input) == [] ==> items == old(items)
      ensures Trim(input) != [] ==> items == old(items) + [Parse(input).value]
      ensures Trim(input) != [] && old(items) == [] ==>
                Preview() == "VK " + Fragment(Parse(input).value)
      ensures Trim(input) != [] && old(items) != [] ==>
                Preview() == old(Preview()) + " " + Fragment(Parse(input).value)
    {
      var rawInput := Trim(input);
      if rawInput == [] {
        return;
      }
      var words := Split(rawInput);
      var lastWord := words[|words| - 1];
      var price: string := [];
      var itemName: string := [];
      if PriceToken(lastWord) {
        price := words[|words| - 1];
        words := words[..|words| - 1];
        itemName := Trim(Join(words));
      } else {
        itemName := rawInput;
      }
      var entry := Entry(itemName, price);
      assert entry == Parse(input).value;
      AppendParsed(items, input);
      if items == [] {
        FormatSingle(entry);
        assert items + [entry] == [entry];
      } else {
        FormatAppend(items, entry);
      }
      items := items + [entry];
    }

    /** A click on the remove mark of the entry at `index`:
        `currentItems.splice(index, 1)`. */
    method RemoveAt(index: int)
      requires Valid()
      modifies this
      ensures Valid()
      ensures items == RemovedAt(old(items), index)
    {
      ghost var before := items;
      items := RemovedAt(items, index);
      assert forall e :: e in items ==> e in before by {
        assert multiset(items) <= multiset(before);
      }
    }

    /** `resetAll`: the list is emptied, and with it the message. */
    method Reset()
      modifies this
      ensures Valid() && items == [] && Preview() == []
    {
      items := [];
    }
  }
}
