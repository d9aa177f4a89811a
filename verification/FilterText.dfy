/** The text of a node filter: items, brackets and numeric ranges
    (crates/client-backend/src/filter.rs). */
module FilterText {
  import opened Results
  import opened Bytes

  // ---------------------------------------------------------------------------------------------
  // Splitting at the commas outside brackets.

  function NextDepth(depth: nat, c: char): nat {
    if c == '[' then depth + 1
    else if c == ']' then (if depth == 0 then 0 else depth - 1)
    else depth
  }

  /** The bracket depth after a text. */
  function DepthAfter(s: string, depth: nat): nat
    decreases |s|
  {
    if |s| == 0 then depth else DepthAfter(s[1..], NextDepth(depth, s[0]))
  }

  predicate Cuts(c: char, depth: nat) {
    c == ',' && depth == 0
  }

  function Split(s: string, depth: nat): (items: seq<string>)
    ensures |items| > 0
    decreases |s|
  {
    if |s| == 0 then [[]]
    else if Cuts(s[0], depth) then [[]] + Split(s[1..], 0)
    else
      var items := Split(s[1..], NextDepth(depth, s[0]));
      [[s[0]] + items[0]] + items[1..]
  }

  /** The items with commas between them. */
  function Join(items: seq<string>): string
    requires |items| > 0
  {
    if |items| == 1 then items[0] else items[0] + [','] + Join(items[1..])
  }

  /** Text in front of the first item. */
  function Glue(front: string, items: seq<string>): seq<string>
    requires |items| > 0
  {
    [front + items[0]] + items[1..]
  }

  lemma GlueStep(front: string, s: string, depth: nat)
    requires |s| > 0
    ensures Glue(front, Split(s, depth)) ==
            if Cuts(s[0], depth) then [front] + Split(s[1..], 0)
            else Glue(front + [s[0]], Split(s[1..], NextDepth(depth, s[0])))
  {
    if Cuts(s[0], depth) {
      assert front + [] == front;
    } else {
      var items := Split(s[1..], NextDepth(depth, s[0]));
      assert front + ([s[0]] + items[0]) == front + [s[0]] + items[0];
    }
  }

  lemma GlueNothing(items: seq<string>)
    requires |items| > 0
    ensures Glue([], items) == items
  {
    assert [] + items[0] == items[0];
  }

  /** The loop over the text with its start position and depth. */
  method SplitFilterItems(raw: string) returns (items: seq<string>)
    ensures items == Split(raw, 0)
  {
    hide Split, Glue;
    items := [];
    var start := 0;
    var depth := 0;
    assert raw[0..] == raw;
    GlueNothing(Split(raw, 0));
    for i := 0 to |raw|
      invariant 0 <= start <= i && depth >= 0
      invariant Split(raw, 0) == items + Glue(raw[start..i], Split(raw[i..], depth))
    {
      var c := raw[i];
      GlueStep(raw[start..i], raw[i..], depth);
      assert raw[i..][1..] == raw[i + 1..];
      assert raw[start..i] + [c] == raw[start..i + 1];
      if c == '[' {
        depth := depth + 1;
      } else if c == ']' {
        depth := if depth == 0 then 0 else depth - 1;
      } else if c == ',' && depth == 0 {
        GlueNothing(Split(raw[i + 1..], 0));
        assert raw[i + 1..i + 1] == [];
        assert items + ([raw[start..i]] + Split(raw[i + 1..], 0)) == items + [raw[start..i]] + Split(raw[i + 1..], 0);
        items := items + [raw[start..i]];
        start := i + 1;
      }
    }
    assert raw[|raw|..] == [] && raw[start..|raw|] == raw[start..];
    GlueLast(raw[start..], depth);
    items := items + [raw[start..]];
  }

  lemma GlueLast(front: string, depth: nat)
    ensures Glue(front, Split([], depth)) == [front]
  {
    assert front + [] == front;
  }

  /** The items joined by commas are the text again. */
  lemma {:induction false} JoinInvertsSplit(s: string, depth: nat)
    ensures Join(Split(s, depth)) == s
    decreases |s|
  {
    if |s| > 0 {
      if Cuts(s[0], depth) {
        JoinInvertsSplit(s[1..], 0);
        assert Split(s, depth)[1..] == Split(s[1..], 0);
        assert s == [] + [','] + s[1..];
      } else {
        var items := Split(s[1..], NextDepth(depth, s[0]));
        JoinInvertsSplit(s[1..], NextDepth(depth, s[0]));
        assert Split(s, depth)[1..] == items[1..];
        assert s == [s[0]] + s[1..];
      }
    }
  }

  /** An item that would not be split. */
  predicate Whole(s: string, depth: nat) {
    Split(s, depth) == [s]
  }

  /** No item splits again, and every item but the last leaves no bracket open. */
  lemma {:induction false} ItemsAreWhole(s: string, depth: nat, i: nat)
    requires i < |Split(s, depth)|
    ensures Whole(Split(s, depth)[i], if i == 0 then depth else 0)
    ensures i < |Split(s, depth)| - 1 ==> DepthAfter(Split(s, depth)[i], if i == 0 then depth else 0) == 0
    decreases |s|
  {
    if |s| > 0 {
      if Cuts(s[0], depth) {
        if i > 0 {
          ItemsAreWhole(s[1..], 0, i - 1);
        }
      } else {
        var d := NextDepth(depth, s[0]);
        ItemsAreWhole(s[1..], d, i);
        if i == 0 {
          var rest := Split(s[1..], d)[0];
          assert ([s[0]] + rest)[1..] == rest;
        }
      }
    }
  }

  /** A whole item, a comma and more text: if the item leaves no bracket open, it is the first
      item; if it does, the first item goes on beyond the comma. */
  lemma {:induction false} SplitAfterItem(item: string, rest: string, depth: nat)
    requires Whole(item, depth)
    ensures DepthAfter(item, depth) == 0 ==> Split(item + [','] + rest, depth) == [item] + Split(rest, 0)
    ensures DepthAfter(item, depth) > 0 ==> |Split(item + [','] + rest, depth)[0]| > |item|
    decreases |item|
  {
    var s := item + [','] + rest;
    if |item| == 0 {
      assert s == [','] + rest && s[1..] == rest;
    } else {
      var d := NextDepth(depth, item[0]);
      assert s[1..] == item[1..] + [','] + rest;
      assert !Cuts(item[0], depth);
      var inner := Split(item[1..], d);
      assert [[item[0]] + inner[0]] + inner[1..] == [item];
      assert [item][0] == [item[0]] + inner[0];
      assert inner[1..] == [] && ([item[0]] + inner[0])[1..] == item[1..];
      assert inner == [item[1..]];
      SplitAfterItem(item[1..], rest, d);
      assert item == [item[0]] + item[1..];
    }
  }

  /** Exactly these lists of items survive being joined and split again: every item is whole, and
      every item but the last leaves no bracket open. */
  lemma {:induction false} SplitInvertsJoin(items: seq<string>)
    requires |items| > 0
    ensures Split(Join(items), 0) == items <==>
            && (forall i :: 0 <= i < |items| ==> Whole(items[i], 0))
            && (forall i :: 0 <= i < |items| - 1 ==> DepthAfter(items[i], 0) == 0)
  {
    if Split(Join(items), 0) == items {
      forall i | 0 <= i < |items|
        ensures Whole(items[i], 0) && (i < |items| - 1 ==> DepthAfter(items[i], 0) == 0)
      {
        ItemsAreWhole(Join(items), 0, i);
      }
    } else if |items| > 1 && Whole(items[0], 0) && DepthAfter(items[0], 0) == 0 {
      SplitAfterItem(items[0], Join(items[1..]), 0);
      SplitInvertsJoin(items[1..]);
      var i :| 0 <= i < |items| - 1 &&
               (!Whole(items[1..][i], 0) || (i < |items| - 2 && DepthAfter(items[1..][i], 0) != 0));
      assert items[1..][i] == items[i + 1];
    }
  }

  // ---------------------------------------------------------------------------------------------
  // Decimal numbers.

  predicate IsDigit(c: char) {
    '0' <= c <= '9'
  }

  predicate AllDigits(s: string) {
    forall i :: 0 <= i < |s| ==> IsDigit(s[i])
  }

  function DigitValue(c: char): nat
    requires IsDigit(c)
  {
    c as int - '0' as int
  }

  function DigitChar(n: nat): (c: char)
    requires n < 10
    ensures IsDigit(c) && DigitValue(c) == n
  {
    '0' + n as char
  }

  function Value(s: string): nat
    requires AllDigits(s)
  {
    if |s| == 0 then 0 else Value(s[..|s| - 1]) * 10 + DigitValue(s[|s| - 1])
  }

  /** `str::parse::<u32>`: an optional plus sign, at least one digit, and no more than 32 bits. */
  function ParseU32(s: string): (r: Option<nat>)
    ensures r.Some? ==> r.value <= U32_MAX
  {
    var digits := if |s| > 0 && s[0] == '+' then s[1..] else s;
    if |digits| == 0 || !AllDigits(digits) then None
    else if Value(digits) > U32_MAX then None
    else Some(Value(digits))
  }

  function Decimal(n: nat): string {
    if n < 10 then [DigitChar(n)] else Decimal(n / 10) + [DigitChar(n % 10)]
  }

  function Zeros(k: nat): string {
    seq(k, _ => '0')
  }

  /** `{:0width$}` */
  function Padded(n: nat, width: nat): string {
    if |Decimal(n)| >= width then Decimal(n) else Zeros(width - |Decimal(n)|) + Decimal(n)
  }

  lemma {:induction false} DecimalValue(n: nat)
    ensures AllDigits(Decimal(n)) && Value(Decimal(n)) == n && |Decimal(n)| > 0
  {
    if n >= 10 {
      DecimalValue(n / 10);
      assert Decimal(n)[..|Decimal(n)| - 1] == Decimal(n / 10);
    }
  }

  lemma {:induction false} ZerosValue(k: nat, s: string)
    requires AllDigits(s)
    ensures AllDigits(Zeros(k) + s) && Value(Zeros(k) + s) == Value(s)
    decreases |s|, k
  {
    var t := Zeros(k) + s;
    if |s| > 0 {
      ZerosValue(k, s[..|s| - 1]);
      assert t[..|t| - 1] == Zeros(k) + s[..|s| - 1];
    } else if k > 0 {
      ZerosValue(k - 1, s);
      assert t[..|t| - 1] == Zeros(k - 1) + s;
    }
  }

  /** No number up to that of a text of digits needs more digits. */
  lemma {:induction false} DecimalIsShort(n: nat, s: string)
    requires |s| > 0 && AllDigits(s) && n <= Value(s)
    ensures |Decimal(n)| <= |s|
    decreases |s|
  {
    var front := s[..|s| - 1];
    if |front| == 0 {
      assert Value(front) == 0;
    } else if n >= 10 {
      assert n / 10 <= Value(front);
      DecimalIsShort(n / 10, front);
    }
  }

  lemma {:induction false} SameWidthSameValue(s: string, t: string)
    requires |s| == |t| && AllDigits(s) && AllDigits(t)
    ensures Value(s) == Value(t) <==> s == t
    decreases |s|
  {
    if |s| > 0 {
      var k := |s| - 1;
      SameWidthSameValue(s[..k], t[..k]);
      assert s == s[..k] + [s[k]] && t == t[..k] + [t[k]];
      var a, b := Value(s[..k]), Value(t[..k]);
      var c, d := DigitValue(s[k]), DigitValue(t[k]);
      assert a * 10 + c == b * 10 + d ==> a == b && c == d;
    }
  }

  /** A padded number has exactly the width asked for, if it fits, and the value it was given. */
  lemma PaddedFits(n: nat, width: nat)
    requires |Decimal(n)| <= width
    ensures |Padded(n, width)| == width && AllDigits(Padded(n, width)) && Value(Padded(n, width)) == n
  {
    DecimalValue(n);
    ZerosValue(width - |Decimal(n)|, Decimal(n));
    assert |Decimal(n)| == width ==> Padded(n, width) == Decimal(n);
  }

  // ---------------------------------------------------------------------------------------------
  // Ranges.

  function Wider(start: string, end: string): nat {
    if |start| >= |end| then |start| else |end|
  }

  function ExpandNumericRange(raw: string, prefix: string, suffix: string, start: string, end: string): seq<string> {
    var first, last := ParseU32(start), ParseU32(end);
    if first.None? || last.None? || first.value > last.value then [raw]
    else
      seq(last.value - first.value + 1,
          i requires 0 <= i => prefix + Padded(first.value + i, Wider(start, end)) + suffix)
  }

  /** A proper range. */
  predicate IsRange(start: string, end: string) {
    ParseU32(start).Some? && ParseU32(end).Some? && ParseU32(start).value <= ParseU32(end).value
  }

  /** What the range stands for: the prefix, a number of the range written with the width of the
      longer bound, the suffix. */
  predicate InRange(p: string, prefix: string, suffix: string, start: string, end: string)
    requires IsRange(start, end)
  {
    var width := Wider(start, end);
    && |p| == |prefix| + width + |suffix|
    && p[..|prefix|] == prefix && p[|prefix| + width..] == suffix
    && AllDigits(p[|prefix|..|prefix| + width])
    && ParseU32(start).value <= Value(p[|prefix|..|prefix| + width]) <= ParseU32(end).value
  }

  lemma RangeNumberFits(n: nat, start: string, end: string)
    requires IsRange(start, end) && n <= ParseU32(end).value
    ensures |Decimal(n)| <= Wider(start, end)
  {
    DecimalIsShort(n, if |end| > 0 && end[0] == '+' then end[1..] else end);
  }

  lemma RangeItem(raw: string, prefix: string, suffix: string, start: string, end: string, i: nat)
    requires IsRange(start, end) && i <= ParseU32(end).value - ParseU32(start).value
    ensures var p := ExpandNumericRange(raw, prefix, suffix, start, end)[i];
            var width := Wider(start, end);
            && InRange(p, prefix, suffix, start, end)
            && Value(p[|prefix|..|prefix| + width]) == ParseU32(start).value + i
  {
    hide ParseU32, Padded, Value, Wider, Decimal;
    var n, width := ParseU32(start).value + i, Wider(start, end);
    RangeNumberFits(n, start, end);
    PaddedFits(n, width);
    var p := prefix + Padded(n, width) + suffix;
    assert p[..|prefix|] == prefix && p[|prefix|..|prefix| + width] == Padded(n, width);
    assert p[|prefix| + width..] == suffix;
  }

  /** A range of numbers expands to one pattern per number, all distinct and of one width, and a
      text is among them if and only if it is what the range stands for. */
  lemma RangeExpandsExactly(raw: string, prefix: string, suffix: string, start: string, end: string)
    requires IsRange(start, end)
    ensures |ExpandNumericRange(raw, prefix, suffix, start, end)| == ParseU32(end).value - ParseU32(start).value + 1
    ensures var r := ExpandNumericRange(raw, prefix, suffix, start, end);
            forall i, j :: 0 <= i < j < |r| ==> r[i] != r[j]
    ensures forall p ::
              p in ExpandNumericRange(raw, prefix, suffix, start, end) <==> InRange(p, prefix, suffix, start, end)
  {
    hide ParseU32, InRange;
    var r := ExpandNumericRange(raw, prefix, suffix, start, end);
    forall i, j | 0 <= i < j < |r|
      ensures r[i] != r[j]
    {
      RangeItem(raw, prefix, suffix, start, end, i);
      RangeItem(raw, prefix, suffix, start, end, j);
    }
    forall p
      ensures p in r <==> InRange(p, prefix, suffix, start, end)
    {
      if p in r {
        var i :| 0 <= i < |r| && r[i] == p;
        RangeItem(raw, prefix, suffix, start, end, i);
      } else if InRange(p, prefix, suffix, start, end) {
        var i := RangeFinds(raw, prefix, suffix, start, end, p);
        assert false;
      }
    }
  }

  lemma RangeFinds(raw: string, prefix: string, suffix: string, start: string, end: string, p: string) returns (i: nat)
    requires IsRange(start, end) && InRange(p, prefix, suffix, start, end)
    ensures i < |ExpandNumericRange(raw, prefix, suffix, start, end)|
    ensures ExpandNumericRange(raw, prefix, suffix, start, end)[i] == p
  {
    hide ParseU32, Padded, Value, Wider, Decimal;
    var width := Wider(start, end);
    var middle := p[|prefix|..|prefix| + width];
    i := Value(middle) - ParseU32(start).value;
    RangeNumberFits(Value(middle), start, end);
    PaddedFits(Value(middle), width);
    SameWidthSameValue(middle, Padded(Value(middle), width));
    assert p == p[..|prefix|] + middle + p[|prefix| + width..];
  }

  // ---------------------------------------------------------------------------------------------
  // Brackets.

  function FindChar(s: string, c: char): (r: Option<nat>)
    ensures r.Some? ==> r.value < |s| && s[r.value] == c && c !in s[..r.value]
    ensures r.None? ==> c !in s
  {
    if |s| == 0 then None
    else if s[0] == c then Some(0)
    else
      var rest := FindChar(s[1..], c);
      assert s == [s[0]] + s[1..];
      if rest.None? then None
      else
        assert s[..rest.value + 1] == [s[0]] + s[1..][..rest.value];
        Some(rest.value + 1)
  }

  /** `str::trim`, for whatever counts as whitespace. */
  function TrimStart(blank: char -> bool, s: string): string {
    if |s| > 0 && blank(s[0]) then TrimStart(blank, s[1..]) else s
  }

  function TrimEnd(blank: char -> bool, s: string): string {
    if |s| > 0 && blank(s[|s| - 1]) then TrimEnd(blank, s[..|s| - 1]) else s
  }

  function Trim(blank: char -> bool, s: string): string {
    TrimEnd(blank, TrimStart(blank, s))
  }

  /** The commas inside brackets are plain. */
  function SplitCommas(s: string): (items: seq<string>)
    ensures |items| > 0
  {
    if |s| == 0 then [[]]
    else if s[0] == ',' then [[]] + SplitCommas(s[1..])
    else
      var items := SplitCommas(s[1..]);
      [[s[0]] + items[0]] + items[1..]
  }

  /** The items, trimmed, without those that are then empty. */
  function Kept(blank: char -> bool, items: seq<string>): seq<string> {
    if |items| == 0 then []
    else
      var item := Trim(blank, items[0]);
      (if |item| == 0 then [] else [item]) + Kept(blank, items[1..])
  }

  /** Each item between prefix and suffix. */
  function Dress(items: seq<string>, prefix: string, suffix: string): seq<string> {
    seq(|items|, i requires 0 <= i < |items| => prefix + items[i] + suffix)
  }

  function ExpandInside(blank: char -> bool, raw: string, prefix: string, inside: string, suffix: string): seq<string> {
    match FindChar(inside, '-')
    case Some(dash) => ExpandNumericRange(raw, prefix, suffix, inside[..dash], inside[dash + 1..])
    case None =>
      var list := Dress(Kept(blank, SplitCommas(inside)), prefix, suffix);
      if |list| == 0 then [raw] else list
  }

  /** Only the first pair of brackets is expanded. */
  function ExpandBracket(blank: char -> bool, raw: string): seq<string> {
    match FindChar(raw, '[')
    case None => [raw]
    case Some(open) =>
      match FindChar(raw[open + 1..], ']')
      case None => [raw]
      case Some(rel) =>
        var close := open + 1 + rel;
        ExpandInside(blank, raw, raw[..open], raw[open + 1..close], raw[close + 1..])
  }

  lemma {:induction false} FindFirst(s: string, c: char, k: nat)
    requires k < |s| && s[k] == c && c !in s[..k]
    ensures FindChar(s, c) == Some(k)
  {
    if k > 0 {
      assert s[0] == s[..k][0] && s[1..][..k - 1] == s[..k][1..];
      FindFirst(s[1..], c, k - 1);
    }
  }

  /** The expression found between the first brackets is the one that was written there. */
  lemma BracketFound(blank: char -> bool, prefix: string, inside: string, suffix: string)
    requires '[' !in prefix && ']' !in inside
    ensures var raw := prefix + ['['] + inside + [']'] + suffix;
            ExpandBracket(blank, raw) == ExpandInside(blank, raw, prefix, inside, suffix)
  {
    hide ExpandInside, FindChar;
    var raw := prefix + ['['] + inside + [']'] + suffix;
    var open, tail := |prefix|, inside + [']'] + suffix;
    assert raw == prefix + ['['] + tail;
    CutAt(raw, prefix, '[', tail);
    CutAt(tail, inside, ']', suffix);
    var close := open + 1 + |inside|;
    assert raw[open + 1..close] == raw[open + 1..][..|inside|];
    assert raw[close + 1..] == raw[open + 1..][|inside| + 1..];
  }

  lemma CutAt(s: string, front: string, c: char, back: string)
    requires s == front + [c] + back && c !in front
    ensures FindChar(s, c) == Some(|front|)
    ensures s[..|front|] == front && s[|front| + 1..] == back
  {
    FindFirst(s, c, |front|);
  }

  /** A range in brackets matches exactly the texts with a number of the range in its place. */
  lemma BracketRange(blank: char -> bool, prefix: string, start: string, end: string, suffix: string)
    requires '[' !in prefix && IsRange(start, end)
    ensures var raw := prefix + ['['] + (start + ['-'] + end) + [']'] + suffix;
            forall p :: p in ExpandBracket(blank, raw) <==> InRange(p, prefix, suffix, start, end)
  {
    hide ExpandNumericRange, InRange, FindChar, ExpandBracket;
    var inside := start + ['-'] + end;
    var raw := prefix + ['['] + inside + [']'] + suffix;
    NumberHasNo(start, '-');
    NumberHasNo(start, ']');
    NumberHasNo(end, ']');
    BracketFound(blank, prefix, inside, suffix);
    assert inside[..|start|] == start && inside[|start| + 1..] == end;
    FindFirst(inside, '-', |start|);
    RangeExpandsExactly(raw, prefix, suffix, start, end);
  }

  lemma NumberHasNo(s: string, c: char)
    requires ParseU32(s).Some? && !IsDigit(c) && c != '+'
    ensures c !in s
  {
    if s[0] == '+' {
      assert s == ['+'] + s[1..];
    }
  }

  /** A list in brackets, of any items without the characters that end or divide them: one pattern
      for each item that is not blank, trimmed, in order; with only blank items, the text itself. */
  lemma BracketList(blank: char -> bool, prefix: string, items: seq<string>, suffix: string)
    requires '[' !in prefix && |items| > 0
    requires forall i :: 0 <= i < |items| ==> ListItem(items[i])
    ensures var raw := prefix + ['['] + Join(items) + [']'] + suffix;
            ExpandBracket(blank, raw) ==
            if Kept(blank, items) == [] then [raw] else Dress(Kept(blank, items), prefix, suffix)
  {
    hide ExpandBracket, FindChar, Kept;
    JoinHasNo(items, ']');
    JoinHasNo(items, '-');
    BracketFound(blank, prefix, Join(items), suffix);
    SplitCommasInvertsJoin(items);
    assert FindChar(Join(items), '-') == None;
  }

  /** What is kept: the items that are not blank, trimmed. */
  lemma {:induction false} KeptMeaning(blank: char -> bool, items: seq<string>, kept: string)
    ensures kept in Kept(blank, items) <==>
            kept != [] && exists i :: 0 <= i < |items| && Trim(blank, items[i]) == kept
  {
    if |items| > 0 {
      KeptMeaning(blank, items[1..], kept);
    }
  }

  /** None of the characters with a meaning inside brackets. */
  predicate ListItem(s: string) {
    ',' !in s && ']' !in s && '-' !in s
  }

  lemma {:induction false} JoinHasNo(items: seq<string>, c: char)
    requires |items| > 0 && c in {']', '-'}
    requires forall i :: 0 <= i < |items| ==> ListItem(items[i])
    ensures c !in Join(items)
  {
    if |items| > 1 {
      JoinHasNo(items[1..], c);
    }
  }

  lemma {:induction false} SplitCommasAfter(item: string, rest: string)
    requires ',' !in item
    ensures SplitCommas(item) == [item]
    ensures SplitCommas(item + [','] + rest) == [item] + SplitCommas(rest)
  {
    var s := item + [','] + rest;
    if |item| == 0 {
      assert s == [','] + rest && s[1..] == rest;
    } else {
      SplitCommasAfter(item[1..], rest);
      assert s[1..] == item[1..] + [','] + rest;
      assert item == [item[0]] + item[1..];
    }
  }

  lemma {:induction false} SplitCommasInvertsJoin(items: seq<string>)
    requires |items| > 0
    requires forall i :: 0 <= i < |items| ==> ListItem(items[i])
    ensures SplitCommas(Join(items)) == items
  {
    if |items| == 1 {
      SplitCommasAfter(items[0], []);
    } else {
      SplitCommasAfter(items[0], Join(items[1..]));
      SplitCommasInvertsJoin(items[1..]);
    }
  }

  /** The patterns of one item. */
  function ItemPatterns(blank: char -> bool, item: string): seq<string> {
    var trimmed := Trim(blank, item);
    if |trimmed| == 0 then [] else ExpandBracket(blank, trimmed)
  }

  // ---------------------------------------------------------------------------------------------
  // What trimming and expanding mean, for every text.

  predicate BlankBetween(blank: char -> bool, s: string, i: nat, j: nat)
    requires j <= |s|
  {
    forall k :: i <= k < j ==> blank(s[k])
  }

  /** `u` is what of `s` stands between `i` and `j`; the rest is blank. */
  predicate TrimmedAt(blank: char -> bool, s: string, u: string, i: nat, j: nat) {
    && i <= j <= |s| && u == s[i..j]
    && BlankBetween(blank, s, 0, i) && BlankBetween(blank, s, j, |s|)
  }

  /** `u` is `s` without the blanks at its ends: only blanks are gone, and none is left at an end. */
  ghost predicate IsTrimOf(blank: char -> bool, s: string, u: string) {
    && (exists i, j :: TrimmedAt(blank, s, u, i, j))
    && (|u| > 0 ==> !blank(u[0]) && !blank(u[|u| - 1]))
  }

  lemma {:induction false} TrimStartCuts(blank: char -> bool, s: string) returns (i: nat)
    ensures i <= |s| && TrimStart(blank, s) == s[i..] && BlankBetween(blank, s, 0, i)
    ensures i < |s| ==> !blank(s[i])
  {
    if |s| > 0 && blank(s[0]) {
      var k := TrimStartCuts(blank, s[1..]);
      i := k + 1;
      assert s[1..][k..] == s[i..];
      forall l | 0 <= l < i
        ensures blank(s[l])
      {
        assert l > 0 ==> s[l] == s[1..][l - 1];
      }
    } else {
      i := 0;
    }
  }

  lemma {:induction false} TrimEndCuts(blank: char -> bool, s: string) returns (j: nat)
    ensures j <= |s| && TrimEnd(blank, s) == s[..j] && BlankBetween(blank, s, j, |s|)
    ensures j > 0 ==> !blank(s[j - 1])
  {
    var n := |s|;
    if n > 0 && blank(s[n - 1]) {
      j := TrimEndCuts(blank, s[..n - 1]);
      assert s[..n - 1][..j] == s[..j];
      forall l | j <= l < n
        ensures blank(s[l])
      {
        assert l < n - 1 ==> s[l] == s[..n - 1][l];
      }
    } else {
      j := n;
    }
  }

  lemma TrimTrims(blank: char -> bool, s: string)
    ensures IsTrimOf(blank, s, Trim(blank, s))
  {
    var start := TrimStart(blank, s);
    var i := TrimStartCuts(blank, s);
    var k := TrimEndCuts(blank, start);
    var u := Trim(blank, s);
    forall l | i + k <= l < |s|
      ensures blank(s[l])
    {
      assert s[l] == start[l - i];
    }
    assert s[i..][..k] == s[i..i + k];
    assert TrimmedAt(blank, s, u, i, i + k);
    if |u| > 0 {
      assert u[0] == s[i] && u[|u| - 1] == start[k - 1];
    }
  }

  /** There is but one such text. */
  lemma TrimIsUnique(blank: char -> bool, s: string, u: string, v: string)
    requires IsTrimOf(blank, s, u) && IsTrimOf(blank, s, v)
    ensures u == v
  {
    var i, j :| TrimmedAt(blank, s, u, i, j);
    var k, l :| TrimmedAt(blank, s, v, k, l);
    NotCutOff(blank, s, u, i, j, v, k, l);
    NotCutOff(blank, s, v, k, l, u, i, j);
  }

  /** What is not blank is cut off at neither end. */
  lemma NotCutOff(blank: char -> bool, s: string, u: string, i: nat, j: nat, v: string, k: nat, l: nat)
    requires TrimmedAt(blank, s, u, i, j) && TrimmedAt(blank, s, v, k, l)
    requires |u| > 0 ==> !blank(u[0]) && !blank(u[|u| - 1])
    ensures |u| > 0 ==> k <= i && j <= l
  {
    if |u| > 0 {
      assert u[0] == s[i] && u[|u| - 1] == s[j - 1];
    }
  }

  /** A text in which a bracket pair is found: prefix, inside and suffix. */
  predicate Brackets(u: string, prefix: string, inside: string, suffix: string) {
    u == prefix + ['['] + inside + [']'] + suffix && '[' !in prefix && ']' !in inside
  }

  /** The inside as a range, divided at its first dash. */
  predicate Dashed(inside: string, start: string, end: string) {
    inside == start + ['-'] + end && '-' !in start
  }

  /** An item of the inside as a list, trimmed and not empty. */
  ghost predicate ListedIn(blank: char -> bool, inside: string, kept: string) {
    && kept != []
    && exists items: seq<string>, i: nat ::
         && i < |items| && inside == Join(items)
         && (forall k :: 0 <= k < |items| ==> ',' !in items[k])
         && IsTrimOf(blank, items[i], kept)
  }

  /** What a bracket pair yields: each number of a proper range, or each item of a list, in its place;
      the text itself if it is no proper range or no item is left. */
  ghost predicate InsideYields(blank: char -> bool, u: string, prefix: string, inside: string, suffix: string,
                               p: string)
  {
    if '-' in inside then
      exists start, end ::
        && Dashed(inside, start, end)
        && if IsRange(start, end) then InRange(p, prefix, suffix, start, end) else p == u
    else if exists kept :: ListedIn(blank, inside, kept) then
      exists kept :: ListedIn(blank, inside, kept) && p == prefix + kept + suffix
    else p == u
  }

  /** What a trimmed text yields: itself, unless it has a bracket pair. */
  ghost predicate TextYields(blank: char -> bool, u: string, p: string) {
    if exists prefix, inside, suffix :: Brackets(u, prefix, inside, suffix) then
      exists prefix, inside, suffix ::
        Brackets(u, prefix, inside, suffix) && InsideYields(blank, u, prefix, inside, suffix, p)
    else p == u
  }

  /** What an item yields: nothing if it is blank, else what its trimmed text does. */
  ghost predicate ItemYields(blank: char -> bool, item: string, p: string) {
    exists u :: IsTrimOf(blank, item, u) && u != [] && TextYields(blank, u, p)
  }

  lemma BracketsAreUnique(u: string, prefix: string, inside: string, suffix: string,
                          prefix': string, inside': string, suffix': string)
    requires Brackets(u, prefix, inside, suffix) && Brackets(u, prefix', inside', suffix')
    ensures prefix == prefix' && inside == inside' && suffix == suffix'
  {
    var tail, tail' := inside + [']'] + suffix, inside' + [']'] + suffix';
    assert u == prefix + ['['] + tail && u == prefix' + ['['] + tail';
    CutAt(u, prefix, '[', tail);
    CutAt(u, prefix', '[', tail');
    assert tail == tail';
    CutAt(tail, inside, ']', suffix);
    CutAt(tail', inside', ']', suffix');
  }

  lemma DashIsUnique(inside: string, start: string, end: string, start': string, end': string)
    requires Dashed(inside, start, end) && Dashed(inside, start', end')
    ensures start == start' && end == end'
  {
    CutAt(inside, start, '-', end);
    CutAt(inside, start', '-', end');
  }

  lemma {:induction false} SplitCommasJoins(s: string)
    ensures Join(SplitCommas(s)) == s
    ensures forall k :: 0 <= k < |SplitCommas(s)| ==> ',' !in SplitCommas(s)[k]
  {
    if |s| > 0 {
      SplitCommasJoins(s[1..]);
      var items, rest := SplitCommas(s), SplitCommas(s[1..]);
      if s[0] == ',' {
        assert items[1..] == rest;
        assert s == [] + [','] + s[1..];
      } else {
        assert items[1..] == rest[1..];
        assert s == [s[0]] + s[1..];
      }
    }
  }

  lemma {:induction false} SplitCommasOfJoin(items: seq<string>)
    requires |items| > 0 && forall k :: 0 <= k < |items| ==> ',' !in items[k]
    ensures SplitCommas(Join(items)) == items
  {
    if |items| == 1 {
      SplitCommasAfter(items[0], []);
    } else {
      SplitCommasAfter(items[0], Join(items[1..]));
      SplitCommasOfJoin(items[1..]);
    }
  }

  /** The list that is kept is the list of the items there are. */
  lemma KeptIsListed(blank: char -> bool, inside: string, kept: string)
    ensures kept in Kept(blank, SplitCommas(inside)) <==> ListedIn(blank, inside, kept)
  {
    var split := SplitCommas(inside);
    KeptMeaning(blank, split, kept);
    SplitCommasJoins(inside);
    if kept in Kept(blank, split) {
      var i :| 0 <= i < |split| && Trim(blank, split[i]) == kept;
      TrimTrims(blank, split[i]);
      assert i < |split| && inside == Join(split) && IsTrimOf(blank, split[i], kept);
    }
    if ListedIn(blank, inside, kept) {
      var items: seq<string>, i: nat :|
        && i < |items| && inside == Join(items)
        && (forall k :: 0 <= k < |items| ==> ',' !in items[k])
        && IsTrimOf(blank, items[i], kept);
      SplitCommasOfJoin(items);
      TrimTrims(blank, items[i]);
      TrimIsUnique(blank, items[i], kept, Trim(blank, items[i]));
      assert Trim(blank, split[i]) == kept;
    }
  }

  lemma InsideYieldsExactly(blank: char -> bool, u: string, prefix: string, inside: string, suffix: string, p: string)
    ensures p in ExpandInside(blank, u, prefix, inside, suffix) <==>
            InsideYields(blank, u, prefix, inside, suffix, p)
  {
    hide Kept, ListedIn, ExpandNumericRange, InRange, ParseU32;
    match FindChar(inside, '-')
    case Some(dash) =>
      var start, end := inside[..dash], inside[dash + 1..];
      assert Dashed(inside, start, end);
      forall start', end' | Dashed(inside, start', end')
        ensures start' == start && end' == end
      {
        DashIsUnique(inside, start, end, start', end');
      }
      RangeOrText(u, prefix, suffix, start, end, p);
    case None =>
      var kept := Kept(blank, SplitCommas(inside));
      forall k
        ensures k in kept <==> ListedIn(blank, inside, k)
      {
        KeptIsListed(blank, inside, k);
      }
      if |kept| > 0 {
        assert kept[0] in kept && ListedIn(blank, inside, kept[0]);
        DressHas(kept, prefix, suffix, p);
      }
  }

  lemma RangeOrText(u: string, prefix: string, suffix: string, start: string, end: string, p: string)
    ensures p in ExpandNumericRange(u, prefix, suffix, start, end) <==>
            if IsRange(start, end) then InRange(p, prefix, suffix, start, end) else p == u
  {
    hide ParseU32, InRange;
    if IsRange(start, end) {
      RangeExpandsExactly(u, prefix, suffix, start, end);
    }
  }

  lemma DressHas(items: seq<string>, prefix: string, suffix: string, p: string)
    ensures p in Dress(items, prefix, suffix) <==> exists k :: k in items && p == prefix + k + suffix
  {
    if p in Dress(items, prefix, suffix) {
      var i :| 0 <= i < |items| && p == Dress(items, prefix, suffix)[i];
      assert items[i] in items;
    }
    if k :| k in items && p == prefix + k + suffix {
      var i :| 0 <= i < |items| && items[i] == k;
      assert Dress(items, prefix, suffix)[i] == p;
    }
  }

  lemma BracketsFound(u: string, open: nat, close: nat)
    requires FindChar(u, '[') == Some(open) && FindChar(u[open + 1..], ']') == Some(close)
    ensures Brackets(u, u[..open], u[open + 1..][..close], u[open + 1..][close + 1..])
  {
    hide FindChar;
    var tail := u[open + 1..];
    DividedAt(u, open);
    DividedAt(tail, close);
    Regrouped(u[..open], ['['], tail[..close], [']'], tail[close + 1..]);
  }

  lemma DividedAt(s: string, k: nat)
    requires k < |s|
    ensures s == s[..k] + [s[k]] + s[k + 1..]
  {
  }

  lemma Regrouped(a: string, b: string, c: string, d: string, e: string)
    ensures a + b + (c + d + e) == a + b + c + d + e
  {
  }

  /** A text without a bracket pair stands for itself. */
  lemma NoBrackets(blank: char -> bool, u: string)
    requires !exists prefix, inside, suffix :: Brackets(u, prefix, inside, suffix)
    ensures ExpandBracket(blank, u) == [u]
  {
    hide ExpandInside, Brackets, FindChar;
    var open := FindChar(u, '[');
    if open.Some? && FindChar(u[open.value + 1..], ']').Some? {
      BracketsFound(u, open.value, FindChar(u[open.value + 1..], ']').value);
    }
  }

  lemma TextYieldsExactly(blank: char -> bool, u: string, p: string)
    ensures p in ExpandBracket(blank, u) <==> TextYields(blank, u, p)
  {
    hide ExpandBracket, ExpandInside, InsideYields, Brackets;
    if prefix, inside, suffix :| Brackets(u, prefix, inside, suffix) {
      BracketsAre(u, prefix, inside, suffix);
      BracketFound(blank, prefix, inside, suffix);
      InsideYieldsExactly(blank, u, prefix, inside, suffix, p);
      forall prefix', inside', suffix' | Brackets(u, prefix', inside', suffix')
        ensures prefix' == prefix && inside' == inside && suffix' == suffix
      {
        BracketsAreUnique(u, prefix, inside, suffix, prefix', inside', suffix');
      }
    } else {
      NoBrackets(blank, u);
    }
  }

  lemma BracketsAre(u: string, prefix: string, inside: string, suffix: string)
    requires Brackets(u, prefix, inside, suffix)
    ensures u == prefix + ['['] + inside + [']'] + suffix && '[' !in prefix && ']' !in inside
  {
  }

  /** For every item: its patterns are exactly what it yields. */
  lemma ItemYieldsExactly(blank: char -> bool, item: string, p: string)
    ensures p in ItemPatterns(blank, item) <==> ItemYields(blank, item, p)
  {
    hide ExpandBracket, TextYields, IsTrimOf;
    var u := Trim(blank, item);
    TrimTrims(blank, item);
    TextYieldsExactly(blank, u, p);
    forall v | IsTrimOf(blank, item, v)
      ensures v == u
    {
      TrimIsUnique(blank, item, u, v);
    }
  }

  // ---------------------------------------------------------------------------------------------
  // The whole filter.

  function AllPatterns(blank: char -> bool, items: seq<string>): seq<string> {
    if |items| == 0 then []
    else AllPatterns(blank, items[..|items| - 1]) + ItemPatterns(blank, items[|items| - 1])
  }

  /** The first occurrences, in order. */
  function Dedup(ps: seq<string>): seq<string> {
    if |ps| == 0 then []
    else
      var before := Dedup(ps[..|ps| - 1]);
      if ps[|ps| - 1] in before then before else before + [ps[|ps| - 1]]
  }

  lemma {:induction false} DedupMeaning(ps: seq<string>)
    ensures forall p :: p in Dedup(ps) <==> p in ps
    ensures forall i, j :: 0 <= i < j < |Dedup(ps)| ==> Dedup(ps)[i] != Dedup(ps)[j]
  {
    if |ps| > 0 {
      DedupMeaning(ps[..|ps| - 1]);
      assert ps == ps[..|ps| - 1] + [ps[|ps| - 1]];
    }
  }

  lemma {:induction false} AllPatternsMeaning(blank: char -> bool, items: seq<string>, p: string)
    ensures p in AllPatterns(blank, items) <==> exists i :: 0 <= i < |items| && p in ItemPatterns(blank, items[i])
  {
    hide ItemPatterns;
    if |items| > 0 {
      AllPatternsMeaning(blank, items[..|items| - 1], p);
    }
  }

  /** Filtering by insertion into the set of patterns seen. */
  method KeepNew(ghost all: seq<string>, before: seq<string>, seenBefore: set<string>, more: seq<string>)
    returns (patterns: seq<string>, seen: set<string>)
    requires before == Dedup(all) && forall p :: p in seenBefore <==> p in before
    ensures patterns == Dedup(all + more)
    ensures forall p :: p in seen <==> p in patterns
  {
    hide Dedup;
    patterns, seen := before, seenBefore;
    ghost var done := all;
    for j := 0 to |more|
      invariant done == all + more[..j]
      invariant patterns == Dedup(done)
      invariant forall p :: p in seen <==> p in patterns
    {
      DedupOneMore(done, more[j]);
      done := done + [more[j]];
      if more[j] !in seen {
        seen := seen + {more[j]};
        patterns := patterns + [more[j]];
      }
    }
    assert done == all + more;
  }

  lemma DedupOneMore(ps: seq<string>, p: string)
    ensures Dedup(ps + [p]) == if p in Dedup(ps) then Dedup(ps) else Dedup(ps) + [p]
  {
    assert (ps + [p])[..|ps|] == ps;
  }

  /** `NodeFilter::parse`: the set of patterns already seen grows with the list. No pattern is kept
      twice, and exactly the patterns of the items are kept. */
  method ParseFilter(blank: char -> bool, raw: Option<string>) returns (patterns: seq<string>)
    ensures raw.None? ==> patterns == []
    ensures raw.Some? ==> patterns == Dedup(AllPatterns(blank, Split(raw.value, 0)))
    ensures forall i, j :: 0 <= i < j < |patterns| ==> patterns[i] != patterns[j]
    ensures raw.Some? ==> forall p :: p in patterns <==>
              exists i :: 0 <= i < |Split(raw.value, 0)| && ItemYields(blank, Split(raw.value, 0)[i], p)
  {
    hide ItemPatterns, ItemYields, Split;
    patterns := [];
    if raw.None? {
      return;
    }
    var items := SplitFilterItems(raw.value);
    var seen: set<string> := {};
    ghost var all: seq<string> := [];
    for i := 0 to |items|
      invariant all == AllPatterns(blank, items[..i])
      invariant patterns == Dedup(all)
      invariant forall p :: p in seen <==> p in patterns
    {
      var expanded := ItemPatterns(blank, items[i]);
      patterns, seen := KeepNew(all, patterns, seen, expanded);
      all := all + expanded;
      assert items[..i + 1][..i] == items[..i];
    }
    assert items[..|items|] == items;
    DedupMeaning(all);
    forall p
      ensures p in patterns <==> exists i :: 0 <= i < |items| && ItemYields(blank, items[i], p)
    {
      AllPatternsMeaning(blank, items, p);
      forall i | 0 <= i < |items|
        ensures p in ItemPatterns(blank, items[i]) <==> ItemYields(blank, items[i], p)
      {
        ItemYieldsExactly(blank, items[i], p);
      }
    }
  }
}
