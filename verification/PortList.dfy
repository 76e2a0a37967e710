/** The port list of an access rule: its text, and the set of ports it stands for. */
module PortList {
  import opened Wrappers

  const MAX_PORT := 65535

  // ---------------------------------------------------------------- the text

  predicate Digit(c: char) { '0' <= c <= '9' }

  /** \d{1,5} */
  predicate Number(s: string) {
    1 <= |s| <= 5 && forall i :: 0 <= i < |s| ==> Digit(s[i])
  }

  /** \d{1,5}(-\d{1,5})? */
  datatype Item = One(port: string) | Span(from: string, upto: string)

  predicate ValidItem(e: Item) {
    match e
    case One(port) => Number(port)
    case Span(from, upto) => Number(from) && Number(upto)
  }

  predicate ValidItems(es: seq<Item>) {
    forall i :: 0 <= i < |es| ==> ValidItem(es[i])
  }

  function ItemText(e: Item): string {
    match e
    case One(port) => port
    case Span(from, upto) => from + "-" + upto
  }

  /** Items with commas in between. */
  function Text(es: seq<Item>): string
    requires es != []
  {
    if |es| == 1 then ItemText(es[0]) else ItemText(es[0]) + "," + Text(es[1..])
  }

  /** The language of the regular expression. */
  predicate Spells(s: string, es: seq<Item>) {
    es != [] && ValidItems(es) && s == Text(es)
  }

  // ---------------------------------------------------------------- the meaning

  function DigitValue(c: char): nat
    requires Digit(c)
  {
    c as int - '0' as int
  }

  function Value(s: string): nat
    requires forall i :: 0 <= i < |s| ==> Digit(s[i])
  {
    if s == [] then 0 else Value(s[..|s| - 1]) * 10 + DigitValue(s[|s| - 1])
  }

  predicate InRange(e: Item)
    requires ValidItem(e)
  {
    match e
    case One(port) => Value(port) <= MAX_PORT
    case Span(from, upto) => Value(from) <= MAX_PORT && Value(upto) <= MAX_PORT
  }

  predicate Covers(e: Item, port: int)
    requires ValidItem(e)
  {
    match e
    case One(p) => port == Value(p)
    case Span(from, upto) => Value(from) <= port <= Value(upto)
  }

  /** The union of the items. */
  predicate Denotes(es: seq<Item>, port: int)
    requires ValidItems(es)
  {
    exists i :: 0 <= i < |es| && Covers(es[i], port)
  }

  // ---------------------------------------------------------------- the parser

  /** strings.Split for a separator of one character. */
  function Split(s: string, sep: char): (parts: seq<string>)
    ensures parts != []
  {
    if sep !in s then [s]
    else
      var i := Find(s, sep);
      [s[..i]] + Split(s[i + 1..], sep)
  }

  function Find(s: string, c: char): (i: nat)
    requires c in s
    ensures i < |s| && s[i] == c && c !in s[..i]
  {
    if s[0] == c then 0 else
    var j := Find(s[1..], c);
    assert s[..j + 1] == [s[0]] + s[1..][..j];
    j + 1
  }

  /** What the regular expressions tell of one part and of the whole text. */
  function ItemOf(p: string): Option<Item> {
    var rp := Split(p, '-');
    if |rp| == 1 && Number(rp[0]) then Some(One(rp[0]))
    else if |rp| == 2 && Number(rp[0]) && Number(rp[1]) then Some(Span(rp[0], rp[1]))
    else None
  }

  function ItemsOf(parts: seq<string>): Option<seq<Item>> {
    if parts == [] then Some([])
    else
      var e, es := ItemOf(parts[0]), ItemsOf(parts[1..]);
      if e.Some? && es.Some? then Some([e.value] + es.value) else None
  }

  function Parse(s: string): Option<seq<Item>> { ItemsOf(Split(s, ',')) }

  // ---------------------------------------------------------------- the text determines the items

  lemma NoSeparator(s: string, sep: char)
    requires sep !in s
    ensures Split(s, sep) == [s]
  {
  }

  lemma {:induction false} FindIsFirst(a: string, sep: char, b: string)
    requires sep !in a
    ensures sep in a + [sep] + b && Find(a + [sep] + b, sep) == |a|
    decreases |a|
  {
    var s := a + [sep] + b;
    assert s[|a|] == sep;
    if a != [] {
      assert s[0] == a[0] && s[1..] == a[1..] + [sep] + b;
      FindIsFirst(a[1..], sep, b);
    }
  }

  lemma SplitAtFirst(a: string, sep: char, b: string)
    requires sep !in a
    ensures Split(a + [sep] + b, sep) == [a] + Split(b, sep)
  {
    FindIsFirst(a, sep, b);
    var s := a + [sep] + b;
    assert s[|a|] == sep;
    assert s[..|a|] == a && s[|a| + 1..] == b;
  }

  lemma TextOfItem(e: Item)
    requires ValidItem(e)
    ensures ',' !in ItemText(e) && ItemOf(ItemText(e)) == Some(e)
  {
    match e
    case One(port) => NoSeparator(port, '-');
    case Span(from, upto) =>
      SplitAtFirst(from, '-', upto);
      NoSeparator(upto, '-');
  }

  lemma OnePart(p: string)
    requires ItemOf(p).Some?
    ensures ItemsOf([p]) == Some([ItemOf(p).value])
  {
    var parts, e := [p], ItemOf(p).value;
    assert parts[1..] == [] && [e] + [] == [e];
    assert ItemsOf(parts[1..]) == Some([]);
  }

  lemma MoreParts(p: string, parts: seq<string>)
    requires ItemOf(p).Some? && ItemsOf(parts).Some?
    ensures ItemsOf([p] + parts) == Some([ItemOf(p).value] + ItemsOf(parts).value)
  {
    assert ([p] + parts)[1..] == parts;
  }

  lemma {:induction false} TextParses(es: seq<Item>)
    requires es != [] && ValidItems(es)
    ensures Parse(Text(es)) == Some(es)
    decreases |es|
  {
    var first := ItemText(es[0]);
    TextOfItem(es[0]);
    assert es == [es[0]] + es[1..];
    if |es| == 1 {
      NoSeparator(first, ',');
      OnePart(first);
    } else {
      var rest := Text(es[1..]);
      TextParses(es[1..]);
      SplitAtFirst(first, ',', rest);
      assert Text(es) == first + [','] + rest;
      MoreParts(first, Split(rest, ','));
    }
  }

  lemma SplitsOnce(p: string, sep: char)
    requires |Split(p, sep)| == 2
    ensures p == Split(p, sep)[0] + [sep] + Split(p, sep)[1]
  {
    var i := Find(p, sep);
    assert |Split(p[i + 1..], sep)| == 1;
    assert p == p[..i] + [p[i]] + p[i + 1..];
  }

  lemma ItemSpells(p: string)
    requires ItemOf(p).Some?
    ensures ValidItem(ItemOf(p).value) && p == ItemText(ItemOf(p).value)
  {
    if |Split(p, '-')| == 2 {
      SplitsOnce(p, '-');
    }
  }

  /** The first part and the others. */
  lemma SplitParses(s: string, i: nat)
    requires Parse(s).Some? && ',' in s && i == Find(s, ',')
    ensures ItemOf(s[..i]).Some? && Parse(s[i + 1..]).Some?
    ensures Parse(s).value == [ItemOf(s[..i]).value] + Parse(s[i + 1..]).value
  {
    assert Split(s, ',')[1..] == Split(s[i + 1..], ',');
  }

  lemma {:induction false} ParsedSpells(s: string)
    requires Parse(s).Some?
    ensures Spells(s, Parse(s).value)
    decreases |s|
  {
    if ',' in s {
      var i := Find(s, ',');
      SplitParses(s, i);
      ItemSpells(s[..i]);
      ParsedSpells(s[i + 1..]);
      assert s == s[..i] + [s[i]] + s[i + 1..];
      TextOfMore(ItemOf(s[..i]).value, Parse(s[i + 1..]).value);
    } else {
      NoSeparator(s, ',');
      assert ItemsOf([s]).Some?;
      ItemSpells(s);
      OnePart(s);
    }
  }

  lemma TextOfMore(e: Item, es: seq<Item>)
    requires es != []
    ensures Text([e] + es) == ItemText(e) + [','] + Text(es)
  {
    assert ([e] + es)[1..] == es;
  }

  /** The text matches the regular expression exactly when it spells a list of items, and then only one. */
  lemma ParseExactlyWhenSpelled(s: string, es: seq<Item>)
    ensures Parse(s) == Some(es) <==> Spells(s, es)
  {
    if Parse(s) == Some(es) {
      ParsedSpells(s);
    }
    if Spells(s, es) {
      TextParses(es);
    }
  }

  // ---------------------------------------------------------------- the loops

  datatype Error = BadFormat | BadPort(text: string)

  type Ports = map<int, int>

  /** The first number that is no port. */
  function FirstBad(es: seq<Item>): Option<string>
    requires ValidItems(es)
  {
    if es == [] then None
    else match es[0] {
      case One(p) => if Value(p) > MAX_PORT then Some(p) else FirstBad(es[1..])
      case Span(a, b) =>
        if Value(a) > MAX_PORT then Some(a) else if Value(b) > MAX_PORT then Some(b) else FirstBad(es[1..])
    }
  }

  lemma {:induction false} NoBadExactlyWhenInRange(es: seq<Item>)
    requires ValidItems(es)
    ensures FirstBad(es).None? <==> forall i :: 0 <= i < |es| ==> InRange(es[i])
    decreases |es|
  {
    if es != [] {
      NoBadExactlyWhenInRange(es[1..]);
      assert forall i :: 1 <= i < |es| ==> es[i] == es[1..][i - 1];
    }
  }

  /** The number is no port, and everything before it in the list is. */
  predicate IsFirstBad(es: seq<Item>, i: int, text: string)
    requires ValidItems(es)
  {
    && 0 <= i < |es| && (forall j :: 0 <= j < i ==> InRange(es[j]))
    && match es[i]
       case One(p) => text == p && Value(p) > 65535
       case Span(from, upto) =>
         if Value(from) > 65535 then text == from else text == upto && Value(upto) > 65535
  }

  lemma {:induction false} FirstBadIsFirst(es: seq<Item>, text: string)
    requires ValidItems(es)
    ensures FirstBad(es) == Some(text) <==> exists i :: IsFirstBad(es, i, text)
    decreases |es|
  {
    if es != [] {
      var rest := es[1..];
      FirstBadIsFirst(rest, text);
      if InRange(es[0]) {
        if i :| IsFirstBad(rest, i, text) {
          assert forall j :: 0 < j <= i ==> es[j] == rest[j - 1];
          assert IsFirstBad(es, i + 1, text);
        }
        if i :| IsFirstBad(es, i, text) {
          assert forall j :: 0 <= j < i - 1 ==> rest[j] == es[j + 1];
          assert IsFirstBad(rest, i - 1, text);
        }
      } else if FirstBad(es) == Some(text) {
        assert IsFirstBad(es, 0, text);
      }
    }
  }

  /** The ports that a map stands for: its keys, each with the value 1. */
  ghost predicate Holds(ports: Ports, es: seq<Item>)
    requires ValidItems(es)
  {
    (forall p :: p in ports <==> Denotes(es, p)) && forall p :: p in ports ==> ports[p] == 1
  }

  /** strconv.ParseUint(s, 10, 16) of at most five digits. */
  method ParseUint16(s: string) returns (r: Option<nat>)
    requires Number(s)
    ensures r == if Value(s) <= 65535 then Some(Value(s)) else None
  {
    var n := 0;
    for i := 0 to |s|
      invariant n == Value(s[..i])
    {
      assert s[..i + 1][..i] == s[..i];
      n := n * 10 + DigitValue(s[i]);
    }
    assert s[..|s|] == s;
    return if n > MAX_PORT then None else Some(n);
  }

  /** One part of the list. */
  method AddPart(ports: Ports, p: string) returns (r: Result<Ports, Error>)
    requires ItemOf(p).Some?
    ensures ValidItem(ItemOf(p).value)
    ensures var bad := FirstBad([ItemOf(p).value]);
            if bad.Some? then r == Err(BadPort(bad.value)) else r.Ok? && Adds(ports, r.value, ItemOf(p).value)
  {
    ItemSpells(p);
    if '-' in p {
      var rp := Split(p, '-');
      var portfrom := ParseUint16(rp[0]);
      if portfrom.None? {
        return Err(BadPort(rp[0]));
      }
      var portto := ParseUint16(rp[1]);
      if portto.None? {
        return Err(BadPort(rp[1]));
      }
      var i, after := portfrom.value, ports;
      while i <= portto.value
        invariant i >= portfrom.value && (i <= portto.value + 1 || i == portfrom.value)
        invariant forall q :: q in after <==> q in ports || portfrom.value <= q < i
        invariant forall q :: q in after ==> after[q] == 1 || (q in ports && after[q] == ports[q])
      {
        after := after[i := 1];
        i := i + 1;
      }
      return Ok(after);
    } else {
      NoSeparator(p, '-');
      var port := ParseUint16(p);
      if port.None? {
        return Err(BadPort(p));
      }
      return Ok(ports[port.value := 1]);
    }
  }

  ghost predicate Adds(ports: Ports, after: Ports, e: Item)
    requires ValidItem(e)
  {
    && (forall q :: q in after <==> q in ports || Covers(e, q))
    && (forall q :: q in after ==> after[q] == 1 || (q in ports && after[q] == ports[q]))
  }

  lemma {:induction false} FirstBadOfMore(es: seq<Item>, e: Item)
    requires ValidItems(es) && ValidItem(e)
    ensures FirstBad(es + [e]) == if FirstBad(es).Some? then FirstBad(es) else FirstBad([e])
    decreases |es|
  {
    if es == [] {
      assert es + [e] == [e];
    } else {
      assert (es + [e])[1..] == es[1..] + [e];
      FirstBadOfMore(es[1..], e);
    }
  }

  lemma {:induction false} FirstBadOfPrefix(es: seq<Item>, k: nat)
    requires ValidItems(es) && k <= |es| && FirstBad(es[..k]).Some?
    ensures FirstBad(es) == FirstBad(es[..k])
    decreases |es| - k
  {
    if k < |es| {
      assert es[..k + 1] == es[..k] + [es[k]];
      FirstBadOfMore(es[..k], es[k]);
      FirstBadOfPrefix(es, k + 1);
    } else {
      assert es[..k] == es;
    }
  }

  lemma AddsNext(ports: Ports, after: Result<Ports, Error>, es: seq<Item>, k: nat)
    requires k < |es| && ValidItems(es) && FirstBad(es[..k]).None? && Holds(ports, es[..k])
    requires var bad := FirstBad([es[k]]);
             if bad.Some? then after == Err(BadPort(bad.value)) else after.Ok? && Adds(ports, after.value, es[k])
    ensures if after.Err? then FirstBad(es).Some? && after == Err(BadPort(FirstBad(es).value))
            else FirstBad(es[..k + 1]).None? && Holds(after.value, es[..k + 1])
  {
    assert es[..k + 1] == es[..k] + [es[k]];
    FirstBadOfMore(es[..k], es[k]);
    if after.Err? {
      FirstBadOfPrefix(es, k + 1);
    } else {
      DenotesMore(es[..k], es[k]);
    }
  }

  method SetPorts(portsStr: string) returns (r: Result<Ports, Error>)
    ensures r == Err(BadFormat) <==> Parse(portsStr).None?
    ensures Parse(portsStr).Some? ==>
              var es := Parse(portsStr).value;
              && ValidItems(es)
              && if FirstBad(es).Some? then r == Err(BadPort(FirstBad(es).value)) else r.Ok? && Holds(r.value, es)
  {
    if Parse(portsStr).None? {
      return Err(BadFormat);
    }
    ParsedSpells(portsStr);
    ghost var es := Parse(portsStr).value;
    var parts := Split(portsStr, ',');
    PartsAreItems(parts);
    var ports: Ports := map[];
    for k := 0 to |parts|
      invariant FirstBad(es[..k]).None?
      invariant Holds(ports, es[..k])
    {
      var p := parts[k];
      if p == "" {
        assert false;
      }
      var after := AddPart(ports, p);
      AddsNext(ports, after, es, k);
      if after.Err? {
        return after;
      }
      ports := after.value;
    }
    assert es[..|parts|] == es;
    return Ok(ports);
  }

  lemma {:induction false} PartsAreItems(parts: seq<string>)
    requires ItemsOf(parts).Some?
    ensures |ItemsOf(parts).value| == |parts|
    ensures forall k :: 0 <= k < |parts| ==> ItemOf(parts[k]) == Some(ItemsOf(parts).value[k])
    decreases |parts|
  {
    if parts != [] {
      PartsAreItems(parts[1..]);
    }
  }

  lemma DenotesMore(es: seq<Item>, e: Item)
    requires ValidItems(es) && ValidItem(e)
    ensures forall p :: Denotes(es + [e], p) <==> Denotes(es, p) || Covers(e, p)
  {
    forall p ensures Denotes(es + [e], p) <==> Denotes(es, p) || Covers(e, p) {
      if Denotes(es, p) {
        var i :| 0 <= i < |es| && Covers(es[i], p);
        assert (es + [e])[i] == es[i];
      }
      if Covers(e, p) {
        assert (es + [e])[|es|] == e;
      }
    }
  }

  /** ContainsInPorts. */
  predicate Contains(ports: Ports, port: int) { port in ports }

  // ---------------------------------------------------------------- round trip

  /** A range of ports, to be printed as one port or as two with a dash. */
  datatype Range = Range(lo: nat, hi: nat, dash: bool)

  predicate ValidRange(r: Range) {
    r.lo <= MAX_PORT && r.hi <= MAX_PORT && (!r.dash ==> r.lo == r.hi)
  }

  function DigitOf(n: nat): (c: char)
    requires n < 10
    ensures Digit(c) && DigitValue(c) == n
  {
    (n + '0' as int) as char
  }

  /** The decimal digits of a number. */
  function Print(n: nat): (s: string)
    ensures s != [] && forall i :: 0 <= i < |s| ==> Digit(s[i])
  {
    if n < 10 then [DigitOf(n)] else Print(n / 10) + [DigitOf(n % 10)]
  }

  lemma {:induction false} ValueOfPrint(n: nat)
    ensures Value(Print(n)) == n
    decreases n
  {
    if n < 10 {
      assert Value([]) == 0;
    } else {
      ValueOfPrint(n / 10);
      assert Print(n)[..|Print(n)| - 1] == Print(n / 10);
    }
  }

  lemma {:induction false} PrintIsShort(n: nat, digits: nat, bound: nat)
    requires 0 < digits && n < bound && bound == Power(digits)
    ensures |Print(n)| <= digits
    decreases digits
  {
    if n >= 10 {
      assert digits > 1;
      PrintIsShort(n / 10, digits - 1, Power(digits - 1));
    }
  }

  function Power(digits: nat): nat { if digits == 0 then 1 else 10 * Power(digits - 1) }

  lemma PortIsNumber(n: nat)
    requires n <= MAX_PORT
    ensures Number(Print(n)) && Value(Print(n)) == n
  {
    assert Power(5) == 100_000 by {
      assert Power(2) == 100;
      assert Power(3) == 1000;
      assert Power(4) == 10_000;
    }
    PrintIsShort(n, 5, 100_000);
    ValueOfPrint(n);
  }

  function ItemOfRange(r: Range): Item {
    if r.dash then Span(Print(r.lo), Print(r.hi)) else One(Print(r.lo))
  }

  lemma RangeItem(r: Range)
    requires ValidRange(r)
    ensures ValidItem(ItemOfRange(r)) && InRange(ItemOfRange(r))
    ensures forall p :: Covers(ItemOfRange(r), p) <==> r.lo <= p <= r.hi
  {
    PortIsNumber(r.lo);
    PortIsNumber(r.hi);
  }

  /** Printing ranges and parsing them gives back their union, with no error. */
  lemma PrintedRangesParse(ranges: seq<Range>) returns (es: seq<Item>)
    requires ranges != [] && forall i :: 0 <= i < |ranges| ==> ValidRange(ranges[i])
    ensures es == seq(|ranges|, i requires 0 <= i < |ranges| => ItemOfRange(ranges[i]))
    ensures es != [] && Parse(Text(es)) == Some(es) && ValidItems(es) && FirstBad(es).None?
    ensures forall p :: Denotes(es, p) <==> exists i :: 0 <= i < |ranges| && ranges[i].lo <= p <= ranges[i].hi
  {
    es := seq(|ranges|, i requires 0 <= i < |ranges| => ItemOfRange(ranges[i]));
    forall i | 0 <= i < |ranges|
      ensures ValidItem(es[i]) && InRange(es[i]) && forall p :: Covers(es[i], p) <==> ranges[i].lo <= p <= ranges[i].hi
    {
      RangeItem(ranges[i]);
    }
    TextParses(es);
    NoBadExactlyWhenInRange(es);
    forall p ensures Denotes(es, p) <==> exists i :: 0 <= i < |ranges| && ranges[i].lo <= p <= ranges[i].hi {
      if i :| 0 <= i < |ranges| && ranges[i].lo <= p <= ranges[i].hi {
        assert Covers(es[i], p);
      }
    }
  }
}
