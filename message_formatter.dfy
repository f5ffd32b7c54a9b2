/**
 The message of `updateFinalPreview`: the current entries rendered as one
 line, `VK [Volt Prime] 150p [Ash]`, or nothing at all when there are none.
 */
module MessageFormatter {
  import opened JsText
  import opened LineParser

  /** One entry as `[name] pricep`, or `[name]` when it has no price. */
  function Fragment(e: Entry): string {
    if e.price != [] then "[" + e.name + "] " + e.price + "p" else "[" + e.name + "]"
  }

  /** The bracketed name always comes first, and the fragment ends in `p`
      exactly when the entry has a price. */
  lemma FragmentShape(e: Entry)
    ensures var f := Fragment(e);
            && |f| >= |e.name| + 2 && f[..|e.name| + 2] == "[" + e.name + "]"
            && (f[|f| - 1] == 'p' <==> e.price != [])
  {
    var bracketed := "[" + e.name + "]";
    if e.price != [] {
      assert Fragment(e) == bracketed + (" " + e.price + "p");
    }
  }

  /** The fragments of the entries, in list order. */
  function Fragments(items: seq<Entry>): (fs: seq<string>)
    ensures |fs| == |items|
    ensures forall i :: 0 <= i < |items| ==> fs[i] == Fragment(items[i])
  {
    seq(|items|, i requires 0 <= i < |items| => Fragment(items[i]))
  }

  /** The fragments of a concatenation are the concatenated fragments. */
  lemma FragmentsConcat(items: seq<Entry>, more: seq<Entry>)
    ensures Fragments(items + more) == Fragments(items) + Fragments(more)
  {
  }

  /** The outbound message: empty for no entries, otherwise `VK ` and the
      fragments separated by single spaces. */
  function Format(items: seq<Entry>): (m: string)
    ensures m == [] <==> items == []
    ensures items != [] ==> |m| >= 3 && m[..3] == "VK "
  {
    if items == [] then [] else "VK " + Join(Fragments(items))
  }

  /** The page builds a fragment as `[name]`, a space and `pricep` (or
      nothing), then trims it: the trim only removes the space left behind
      when there is no price. */
  lemma FragmentTrimmed(e: Entry)
    ensures Fragment(e) == Trim("[" + e.name + "] " + (if e.price != [] then e.price + "p" else []))
  {
    var bracketed := "[" + e.name + "]";
    var s := "[" + e.name + "] " + (if e.price != [] then e.price + "p" else []);
    assert s[0] == '[';
    TrimStartKeeps(s);
    if e.price != [] {
      assert s == bracketed + " " + e.price + "p";
      TrimEndKeeps(s);
    } else {
      assert s == bracketed + [' '];
      TrimEndDropsSpace(bracketed, ' ');
      TrimEndKeeps(bracketed);
    }
  }

  /** One entry gives `VK ` and its fragment. */
  lemma FormatSingle(e: Entry)
    ensures Format([e]) == "VK " + Fragment(e)
  {
    assert Fragments([e]) == [Fragment(e)];
  }

  /** Adding an entry at the end adds a space and its fragment at the end of
      the message, so the full recompute after an append is the old message
      extended. */
  lemma FormatAppend(items: seq<Entry>, e: Entry)
    requires items != []
    ensures Format(items + [e]) == Format(items) + " " + Fragment(e)
  {
    FragmentsConcat(items, [e]);
    var fs, f := Fragments(items), Fragment(e);
    assert Fragments([e]) == [f];
    JoinAppend(fs, f);
  }

  /** The message for a list begins with the message for any non-empty
      prefix of it: earlier entries keep their place and text. */
  lemma FormatPrefix(items: seq<Entry>, more: seq<Entry>)
    requires items != []
    ensures |Format(items)| <= |Format(items + more)|
    ensures Format(items + more)[..|Format(items)|] == Format(items)
  {
    FragmentsConcat(items, more);
    var fs, gs := Fragments(items), Fragments(more);
    JoinPrefix(fs, gs);
    var j, j' := Join(fs), Join(fs + gs);
    assert Format(items) == "VK " + j;
    assert Format(items + more) == "VK " + j';
    assert ("VK " + j')[..|"VK " + j|] == "VK " + j'[..|j|];
  }

  /** `[{A, "10"}, {B, ""}]` gives `VK [A] 10p [B]`. */
  lemma FormatExample()
    ensures Format([Entry("A", "10"), Entry("B", "")]) == "VK [A] 10p [B]"
  {
    var a, b := Entry("A", "10"), Entry("B", "");
    assert "VK " + "[A] 10p" + " " + "[B]" == "VK [A] 10p [B]" by {}
    assert Fragment(a) == "[A] 10p" && Fragment(b) == "[B]";
    assert [a, b] == [a] + [b];
    FormatSingle(a);
    FormatAppend([a], b);
  }
}
