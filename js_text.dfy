/**
 The JavaScript string built-ins the offer builder relies on, written out
 over `seq<char>`: `String.prototype.trim`, `String.prototype.split(' ')`,
 `Array.prototype.join(' ')` and the global `parseInt` with no radix.
 NaN, the one "not a number" result of `parseInt`, is `None`.
 */
module JsText {

  datatype Option<+T> = None | Some(value: T)

  /** The ECMAScript WhiteSpace and LineTerminator code points: what `trim`
      removes at both ends and what `parseInt` skips before the number. */
  predicate IsWhiteSpace(c: char) {
    || c == '\t' || c == '\n' || c == '\U{B}' || c == '\U{C}' || c == '\r'
    || c == ' ' || c == '\U{A0}' || c == '\U{1680}'
    || ('\U{2000}' <= c <= '\U{200A}')
    || c == '\U{2028}' || c == '\U{2029}' || c == '\U{202F}' || c == '\U{205F}'
    || c == '\U{3000}' || c == '\U{FEFF}'
  }

  /** Removes the leading white space. */
  function TrimStart(s: string): string
  {
    if s != [] && IsWhiteSpace(s[0]) then TrimStart(s[1..]) else s
  }

  /** Removes the trailing white space. */
  function TrimEnd(s: string): string
  {
    if s != [] && IsWhiteSpace(s[|s| - 1]) then TrimEnd(s[..|s| - 1]) else s
  }

  /** TrimStart gives the longest suffix of `s` that does not start with
      white space. */
  lemma {:induction false} TrimStartSuffix(s: string)
    ensures var r := TrimStart(s);
            && |r| <= |s| && r == s[|s| - |r|..]
            && (forall i :: 0 <= i < |s| - |r| ==> IsWhiteSpace(s[i]))
            && (r != [] ==> !IsWhiteSpace(r[0]))
  {
    if s != [] && IsWhiteSpace(s[0]) {
      var t := s[1..];
      TrimStartSuffix(t);
      var r := TrimStart(t);
      assert TrimStart(s) == r;
      assert t[|t| - |r|..] == s[|s| - |r|..];
      forall i | 1 <= i < |s| - |r| ensures IsWhiteSpace(s[i]) {
        assert s[i] == t[i - 1];
      }
    }
  }

  /** TrimEnd gives the longest prefix of `s` that does not end with white
      space. */
  lemma {:induction false} TrimEndPrefix(s: string)
    ensures var r := TrimEnd(s);
            && |r| <= |s| && r == s[..|r|]
            && (forall i :: |r| <= i < |s| ==> IsWhiteSpace(s[i]))
            && (r != [] ==> !IsWhiteSpace(r[|r| - 1]))
  {
    if s != [] && IsWhiteSpace(s[|s| - 1]) {
      var t := s[..|s| - 1];
      TrimEndPrefix(t);
      var r := TrimEnd(t);
      assert TrimEnd(s) == r;
      assert t[..|r|] == s[..|r|];
      forall i | |r| <= i < |s| - 1 ensures IsWhiteSpace(s[i]) {
        assert s[i] == t[i];
      }
    }
  }

  /** `String.prototype.trim`. */
  function Trim(s: string): string
  {
    TrimEnd(TrimStart(s))
  }

  /** The trim is the slice of `s` left once the white space at both ends is
      gone: it neither starts nor ends with white space, and it is empty
      exactly when `s` is all white space. */
  lemma TrimSpec(s: string)
    ensures var r := Trim(s);
            && (exists k {:trigger s[k..]} ::
                  && 0 <= k <= |s| - |r| && r == s[k..][..|r|]
                  && (forall i :: 0 <= i < k ==> IsWhiteSpace(s[i]))
                  && (forall i :: k + |r| <= i < |s| ==> IsWhiteSpace(s[i])))
            && (r != [] ==> !IsWhiteSpace(r[0]) && !IsWhiteSpace(r[|r| - 1]))
            && (r == [] <==> forall i :: 0 <= i < |s| ==> IsWhiteSpace(s[i]))
  {
    TrimSlice(s);
  }

  lemma TrimSlice(s: string)
    ensures var r := TrimEnd(TrimStart(s));
            var k := |s| - |TrimStart(s)|;
            && 0 <= k <= |s| - |r| && r == s[k..][..|r|]
            && (forall i :: 0 <= i < k ==> IsWhiteSpace(s[i]))
            && (forall i :: k + |r| <= i < |s| ==> IsWhiteSpace(s[i]))
            && (r != [] ==> !IsWhiteSpace(r[0]) && !IsWhiteSpace(r[|r| - 1]))
  {
    var t := TrimStart(s);
    var r := TrimEnd(t);
    var k := |s| - |t|;
    TrimStartSuffix(s);
    TrimEndPrefix(t);
    forall i | k + |r| <= i < |s| ensures IsWhiteSpace(s[i]) {
      assert s[i] == t[i - k];
    }
    if r != [] {
      assert r[0] == t[0];
    }
  }

  lemma TrimStartKeeps(s: string)
    requires s == [] || !IsWhiteSpace(s[0])
    ensures TrimStart(s) == s
  {
  }

  lemma TrimEndKeeps(s: string)
    requires s == [] || !IsWhiteSpace(s[|s| - 1])
    ensures TrimEnd(s) == s
  {
  }

  /** A string with no white space at either end is its own trim. */
  lemma TrimKeeps(s: string)
    requires s == [] || (!IsWhiteSpace(s[0]) && !IsWhiteSpace(s[|s| - 1]))
    ensures Trim(s) == s
  {
    TrimStartKeeps(s);
    TrimEndKeeps(s);
  }

  /** Trimming twice is trimming once. */
  lemma TrimIdempotent(s: string)
    ensures Trim(Trim(s)) == Trim(s)
  {
    TrimSpec(s);
    TrimKeeps(Trim(s));
  }

  /** White space appended at the end does not survive the trim. */
  lemma {:induction false} TrimEndDropsSpace(s: string, c: char)
    requires IsWhiteSpace(c)
    ensures TrimEnd(s + [c]) == TrimEnd(s)
  {
    assert (s + [c])[..|s|] == s;
  }

  /** Leading white space is removed from the front of a concatenation as
      long as the first part has nothing else. */
  lemma {:induction false} TrimStartAppend(x: string, y: string)
    ensures TrimStart(x + y) == if TrimStart(x) == [] then TrimStart(y) else TrimStart(x) + y
  {
    if x != [] {
      assert (x + y)[0] == x[0] && (x + y)[1..] == x[1..] + y;
      if IsWhiteSpace(x[0]) {
        TrimStartAppend(x[1..], y);
      }
    } else {
      assert x + y == y;
    }
  }

  /** A white-space character at the end makes no difference to the trim. */
  lemma TrimAppendSpace(x: string, c: char)
    requires IsWhiteSpace(c)
    ensures Trim(x + [c]) == Trim(x)
  {
    TrimStartAppend(x, [c]);
    if TrimStart(x) != [] {
      TrimEndDropsSpace(TrimStart(x), c);
    }
  }

  /** `Array.prototype.join(' ')`: the words with one space between each two. */
  function Join(ws: seq<string>): (r: string)
    ensures |ws| == 0 ==> r == []
    ensures |ws| >= 1 ==> |ws[0]| <= |r| && r[..|ws[0]|] == ws[0]
  {
    if |ws| == 0 then []
    else if |ws| == 1 then ws[0]
    else ws[0] + " " + Join(ws[1..])
  }

  /** `String.prototype.split(' ')`: the pieces of `s` between its spaces,
      empty pieces included; putting the spaces back gives `s` again. */
  function Split(s: string): (ws: seq<string>)
    ensures |ws| >= 1
    ensures forall i :: 0 <= i < |ws| ==> ' ' !in ws[i]
    ensures Join(ws) == s
  {
    if s == [] then [[]]
    else
      var rest := Split(s[1..]);
      if s[0] == ' ' then
        var ws := [[]] + rest;
        assert ws[1..] == rest;
        ws
      else
        var ws := [[s[0]] + rest[0]] + rest[1..];
        assert ws[1..] == rest[1..];
        assert |rest| >= 2 ==> Join(rest) == rest[0] + " " + Join(rest[1..]);
        assert ' ' !in [s[0]] + rest[0] by {
          assert forall j :: 1 <= j < |[s[0]] + rest[0]| ==> ([s[0]] + rest[0])[j] == rest[0][j - 1];
        }
        ws
  }

  /** A single word joins to itself. */
  lemma JoinOne(w: string)
    ensures Join([w]) == w
  {
  }

  /** Joining one more word adds a space and the word at the end. */
  lemma {:induction false} JoinAppend(ws: seq<string>, w: string)
    requires |ws| >= 1
    ensures Join(ws + [w]) == Join(ws) + " " + w
  {
    if |ws| == 1 {
      assert ws + [w] == [ws[0], w];
      assert [ws[0], w][1..] == [w];
    } else {
      assert (ws + [w])[1..] == ws[1..] + [w];
      JoinAppend(ws[1..], w);
    }
  }

  /** The joined words begin with the joined words of any non-empty prefix. */
  lemma {:induction false} JoinPrefix(fs: seq<string>, gs: seq<string>)
    requires fs != []
    ensures |Join(fs)| <= |Join(fs + gs)| && Join(fs + gs)[..|Join(fs)|] == Join(fs)
  {
    if gs == [] {
      assert fs + gs == fs;
    } else {
      var init, last := gs[..|gs| - 1], gs[|gs| - 1];
      JoinPrefix(fs, init);
      assert fs + gs == (fs + init) + [last];
      JoinAppend(fs + init, last);
      var m, m' := Join(fs), Join(fs + init);
      assert (m' + " " + last)[..|m|] == m'[..|m|];
    }
  }

  /** A word with no space in it splits into itself. */
  lemma {:induction false} SplitWord(w: string)
    requires ' ' !in w
    ensures Split(w) == [w]
  {
    if w != [] {
      assert ' ' !in w[1..] by {
        assert forall j :: 0 <= j < |w[1..]| ==> w[1..][j] == w[j + 1];
      }
      SplitWord(w[1..]);
      assert [w[0]] + w[1..] == w;
    }
  }

  /** One step of Split: a leading space closes an empty word, any other
      character joins the first word. */
  lemma SplitCons(c: char, u: string)
    ensures Split([c] + u) ==
              if c == ' ' then [[]] + Split(u) else [[c] + Split(u)[0]] + Split(u)[1..]
  {
    assert ([c] + u)[0] == c && ([c] + u)[1..] == u;
  }

  /** Splitting at the first space: a space-free word, the space, and the rest. */
  lemma {:induction false} SplitAfterWord(w: string, t: string)
    requires ' ' !in w
    ensures Split(w + " " + t) == [w] + Split(t)
  {
    if w == [] {
      assert w + " " + t == [' '] + t;
      SplitCons(' ', t);
    } else {
      assert ' ' !in w[1..] by {
        assert forall j :: 0 <= j < |w[1..]| ==> w[1..][j] == w[j + 1];
      }
      assert w + " " + t == [w[0]] + (w[1..] + " " + t);
      SplitCons(w[0], w[1..] + " " + t);
      SplitAfterWord(w[1..], t);
      assert [w[0]] + w[1..] == w;
    }
  }

  /** Split undoes Join for words without spaces: with Split's own contract
      this makes the two inverse to each other. */
  lemma {:induction false} SplitJoin(ws: seq<string>)
    requires |ws| >= 1
    requires forall i :: 0 <= i < |ws| ==> ' ' !in ws[i]
    ensures Split(Join(ws)) == ws
  {
    if |ws| == 1 {
      SplitWord(ws[0]);
    } else {
      SplitJoin(ws[1..]);
      SplitAfterWord(ws[0], Join(ws[1..]));
    }
  }

  /** The last piece of the split is what follows the last space of `s`, and
      the other pieces rejoined are what precedes that space. */
  lemma SplitLast(s: string)
    ensures var ws := Split(s);
            var n := |ws|;
            s == (if n == 1 then [] else Join(ws[..n - 1]) + " ") + ws[n - 1]
  {
    var ws := Split(s);
    var n := |ws|;
    if n > 1 {
      assert ws == ws[..n - 1] + [ws[n - 1]];
      JoinAppend(ws[..n - 1], ws[n - 1]);
    }
  }

  // ---------------------------------------------------------------------------
  // parseInt

  predicate IsDecimalDigit(c: char) { '0' <= c <= '9' }

  predicate IsDigit(c: char, radix: nat) {
    IsDecimalDigit(c) || (radix == 16 && ('a' <= c <= 'f' || 'A' <= c <= 'F'))
  }

  function DigitValue(c: char): (d: nat)
    requires IsDigit(c, 16)
    ensures d < 16
    ensures d == 0 <==> c == '0'
  {
    if IsDecimalDigit(c) then c as nat - '0' as nat
    else if 'a' <= c <= 'f' then c as nat - 'a' as nat + 10
    else c as nat - 'A' as nat + 10
  }

  /** The longest prefix of `s` made of digits of the radix. */
  function LeadingDigits(s: string, radix: nat): (z: string)
    ensures |z| <= |s| && z == s[..|z|]
    ensures forall i :: 0 <= i < |z| ==> IsDigit(z[i], radix)
    ensures |z| == |s| || !IsDigit(s[|z|], radix)
  {
    if s != [] && IsDigit(s[0], radix) then [s[0]] + LeadingDigits(s[1..], radix) else []
  }

  /** The number a run of digits denotes in the radix (most significant first). */
  function Value(z: string, radix: nat): nat
    requires radix == 10 || radix == 16
    requires forall i :: 0 <= i < |z| ==> IsDigit(z[i], radix)
  {
    if z == [] then 0
    else
      assert IsDigit(z[|z| - 1], radix);
      var high := Value(z[..|z| - 1], radix);
      (if radix == 16 then high * 16 else high * 10) + DigitValue(z[|z| - 1])
  }

  /** A run of digits denotes a positive number exactly when one of them is
      not `0`: leading zeros change nothing. */
  lemma {:induction false} ValuePositive(z: string, radix: nat)
    requires radix == 10 || radix == 16
    requires forall i :: 0 <= i < |z| ==> IsDigit(z[i], radix)
    ensures Value(z, radix) > 0 <==> exists i :: 0 <= i < |z| && z[i] != '0'
  {
    if z != [] {
      var p := z[..|z| - 1];
      ValuePositive(p, radix);
      assert forall i :: 0 <= i < |p| ==> p[i] == z[i];
      if Value(p, radix) > 0 {
        var i :| 0 <= i < |p| && p[i] != '0';
        assert z[i] != '0';
      }
    }
  }

  /** `parseInt(s)` with no radix (ECMAScript, section 19.2.5 of the 2023
      edition): leading white space is skipped, one `+` or `-` is read, a
      `0x` or `0X` prefix selects radix 16, and the longest run of digits that
      follows is the number; no digits at all gives NaN. The value is the exact
      integer; the conversion to a Number that JavaScript applies rounds large
      values but never changes their sign. */
  function ParseInt(s: string): (n: Option<int>)
    ensures n.Some? ==> s != []
  {
    ParseSigned(TrimStart(s))
  }

  /** One optional sign, then the unsigned numeral; `-0` is 0 here, which is
      as far from positive as JavaScript's negative zero. */
  function ParseSigned(t: string): (n: Option<int>)
    ensures n.Some? ==> t != []
    ensures n.Some? && t[0] == '-' ==> n.value <= 0
    ensures n.Some? && t[0] != '-' ==> n.value >= 0
  {
    if t != [] && t[0] == '-' then
      match ParseUnsigned(t[1..])
      case None => None
      case Some(v) => Some(-v)
    else if t != [] && t[0] == '+' then ParseUnsigned(t[1..])
    else ParseUnsigned(t)
  }

  /** A `0x` or `0X` prefix selects radix 16, otherwise radix 10. */
  function ParseUnsigned(u: string): (n: Option<int>)
    ensures n.Some? ==> u != [] && IsDecimalDigit(u[0]) && n.value >= 0
  {
    if |u| >= 2 && u[0] == '0' && (u[1] == 'x' || u[1] == 'X') then ParseDigits(u[2..], 16)
    else ParseDigits(u, 10)
  }

  /** The value of the leading run of digits, NaN when there is none. */
  function ParseDigits(v: string, radix: nat): (n: Option<int>)
    requires radix == 10 || radix == 16
    ensures n.Some? <==> v != [] && IsDigit(v[0], radix)
    ensures n.Some? ==> n.value >= 0
  {
    var z := LeadingDigits(v, radix);
    if z == [] then None else Some(Value(z, radix))
  }

  /** The digits that start `d + rest` are exactly `d` when `rest` does not
      continue the run. */
  lemma {:induction false} LeadingDigitsOf(d: string, rest: string, radix: nat)
    requires forall i :: 0 <= i < |d| ==> IsDigit(d[i], radix)
    requires rest == [] || !IsDigit(rest[0], radix)
    ensures LeadingDigits(d + rest, radix) == d
  {
    if d == [] {
      assert d + rest == rest;
    } else {
      assert (d + rest)[0] == d[0] && (d + rest)[1..] == d[1..] + rest;
      LeadingDigitsOf(d[1..], rest, radix);
      assert [d[0]] + d[1..] == d;
    }
  }

  /** A decimal numeral followed by anything that is not a digit reads as
      that numeral (`"150abc"` and `"12.5"` read as 150 and 12), unless it is
      the `0x` prefix of a hexadecimal numeral. */
  lemma ParseIntDecimal(d: string, rest: string)
    requires d != [] && forall i :: 0 <= i < |d| ==> IsDecimalDigit(d[i])
    requires rest == [] || !IsDecimalDigit(rest[0])
    requires !(d == "0" && rest != [] && (rest[0] == 'x' || rest[0] == 'X'))
    ensures ParseInt(d + rest) == Some(Value(d, 10) as int)
  {
    var s := d + rest;
    assert s[0] == d[0];
    TrimStartKeeps(s);
    assert |s| >= 2 && s[0] == '0' ==> !(s[1] == 'x' || s[1] == 'X') by {
      if |d| >= 2 { assert s[1] == d[1]; } else if |s| >= 2 { assert s[1] == rest[0]; }
    }
    assert ParseInt(s) == ParseUnsigned(s) == ParseDigits(s, 10);
    LeadingDigitsOf(d, rest, 10);
  }

  /** `0x` (or `0X`) followed by hexadecimal digits reads in radix 16
      (`"0x1F"` reads as 31). */
  lemma ParseIntHex(x: char, z: string, rest: string)
    requires x == 'x' || x == 'X'
    requires z != [] && forall i :: 0 <= i < |z| ==> IsDigit(z[i], 16)
    requires rest == [] || !IsDigit(rest[0], 16)
    ensures ParseInt(['0', x] + z + rest) == Some(Value(z, 16) as int)
  {
    var s := ['0', x] + (z + rest);
    assert ['0', x] + z + rest == s;
    assert s[0] == '0' && s[1] == x && s[2..] == z + rest;
    TrimStartKeeps(s);
    assert ParseInt(s) == ParseSigned(s);
    assert ParseSigned(s) == ParseUnsigned(s);
    assert ParseUnsigned(s) == ParseDigits(z + rest, 16);
    LeadingDigitsOf(z, rest, 16);
  }

  /** White space before the number is skipped: any run of it in front of a
      string that does not itself start with white space leaves the result as
      it is (`"\t5"` reads as 5). */
  lemma ParseIntPadded(w: string, u: string)
    requires forall i :: 0 <= i < |w| ==> IsWhiteSpace(w[i])
    requires u == [] || !IsWhiteSpace(u[0])
    ensures ParseInt(w + u) == ParseInt(u)
  {
    TrimStartSuffix(w);
    TrimStartAppend(w, u);
    TrimStartKeeps(u);
  }

  /** A leading `+` is dropped: the rest is read unsigned (`"+150"` reads as
      150). */
  lemma ParseIntPlus(u: string)
    ensures ParseInt("+" + u) == ParseUnsigned(u)
  {
    var s := "+" + u;
    TrimStartKeeps(s);
    assert s[0] == '+' && s[1..] == u;
  }

  /** A leading `-` negates what the rest reads as unsigned, and NaN stays
      NaN. */
  lemma ParseIntMinus(u: string)
    ensures ParseUnsigned(u).None? ==> ParseInt("-" + u).None?
    ensures ParseUnsigned(u).Some? ==> ParseInt("-" + u) == Some(-ParseUnsigned(u).value)
  {
    var s := "-" + u;
    TrimStartKeeps(s);
    assert s[0] == '-' && s[1..] == u;
  }

  /** A string that starts with neither white space nor a sign is read as an
      unsigned numeral, so the facts above about `ParseInt` of such strings
      are facts about `ParseUnsigned` as well. */
  lemma ParseIntUnsigned(u: string)
    requires u == [] || (!IsWhiteSpace(u[0]) && u[0] != '+' && u[0] != '-')
    ensures ParseInt(u) == ParseUnsigned(u)
  {
    TrimStartKeeps(u);
  }

  /** `0x` (or `0X`) not followed by a hexadecimal digit is NaN: the prefix
      is taken and no digit is left to read. */
  lemma ParseUnsignedBareHex(x: char, rest: string)
    requires x == 'x' || x == 'X'
    requires rest == [] || !IsDigit(rest[0], 16)
    ensures ParseUnsigned(['0', x] + rest).None?
  {
    var u := ['0', x] + rest;
    assert u[0] == '0' && u[1] == x && u[2..] == rest;
  }

  /** A leading minus sign never gives a positive number. */
  lemma ParseIntNegative(t: string)
    ensures ParseInt("-" + t).Some? ==> ParseInt("-" + t).value <= 0
  {
    TrimStartKeeps("-" + t);
  }
}

