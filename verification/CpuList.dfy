/** `parse_cpu_list`: the kernel's CPU-list format, read and written back. */
module CpuList {
  import opened Wrappers
  import opened Ordering
  import opened Collections
  import opened RankList

  datatype ListError = InvalidStart | InvalidEnd | InvalidRange | EmptyList

  // ---------------------------------------------------------------- numbers

  predicate IsDigit(c: char) {
    '0' <= c <= '9'
  }

  function DigitValue(c: char): nat
    requires IsDigit(c)
  {
    c as int - '0' as int
  }

  predicate AllDigits(s: string) {
    forall i | 0 <= i < |s| :: IsDigit(s[i])
  }

  function NumberOf(s: string): nat
    requires AllDigits(s)
  {
    if s == [] then 0 else NumberOf(s[..|s| - 1]) * 10 + DigitValue(s[|s| - 1])
  }

  /** An optional plus sign, then at least one digit. */
  predicate Numeral(s: string) {
    var digits := if s != [] && s[0] == '+' then s[1..] else s;
    digits != [] && AllDigits(digits)
  }

  function NumeralValue(s: string): nat
    requires Numeral(s)
  {
    NumberOf(if s[0] == '+' then s[1..] else s)
  }

  /** `str::parse::<usize>` */
  function ParseUsize(s: string): Option<nat> {
    if Numeral(s) && NumeralValue(s) <= USIZE_MAX then Some(NumeralValue(s)) else None
  }

  function Decimal(n: nat): (s: string)
    ensures s != [] && AllDigits(s) && NumberOf(s) == n
    ensures s[0] == '0' ==> n == 0
  {
    var digit := ('0' as int + n % 10) as char;
    if n < 10 then [digit] else Decimal(n / 10) + [digit]
  }

  // ---------------------------------------------------------------- splitting and trimming

  function Split(s: string, sep: char): (parts: seq<string>)
    ensures parts != []
  {
    if s == [] then [[]] else
    var rest := Split(s[1..], sep);
    if s[0] == sep then [[]] + rest else [[s[0]] + rest[0]] + rest[1..]
  }

  function Join(parts: seq<string>, sep: char): string
    requires parts != []
  {
    if |parts| == 1 then parts[0] else parts[0] + [sep] + Join(parts[1..], sep)
  }

  predicate IsSpace(c: char) {
    || '\t' <= c <= '\r'
    || c == ' '
    || c in ['\U{0085}', '\U{00A0}', '\U{1680}', '\U{2028}', '\U{2029}', '\U{202F}', '\U{205F}', '\U{3000}']
    || '\U{2000}' <= c <= '\U{200A}'
  }

  /** The characters with the Unicode property White_Space. */
  const WHITE_SPACE: set<char> := {
    '\t', '\n', '\U{000B}', '\U{000C}', '\r', ' ', '\U{0085}', '\U{00A0}', '\U{1680}',
    '\U{2000}', '\U{2001}', '\U{2002}', '\U{2003}', '\U{2004}', '\U{2005}', '\U{2006}', '\U{2007}',
    '\U{2008}', '\U{2009}', '\U{200A}', '\U{2028}', '\U{2029}', '\U{202F}', '\U{205F}', '\U{3000}'}

  lemma SpaceIsWhite(c: char)
    ensures IsSpace(c) <==> c in WHITE_SPACE
  {
  }

  function TrimStart(s: string): string {
    if s != [] && IsSpace(s[0]) then TrimStart(s[1..]) else s
  }

  function TrimEnd(s: string): string {
    if s != [] && IsSpace(s[|s| - 1]) then TrimEnd(s[..|s| - 1]) else s
  }

  function Trim(s: string): string {
    TrimEnd(TrimStart(s))
  }

  // ---------------------------------------------------------------- the reader

  datatype Range = Range(lo: nat, hi: nat)

  function ParseItem(item: string): (r: Result<Range, ListError>)
    ensures r.Success? ==> r.value.lo <= r.value.hi
  {
    var bounds := Split(item, '-');
    match ParseUsize(bounds[0])
    case None => Failure(InvalidStart)
    case Some(start) =>
      var end := if |bounds| > 1 then ParseUsize(bounds[1]) else Some(start);
      match end
      case None => Failure(InvalidEnd)
      case Some(e) =>
        if |bounds| > 2 || e < start then Failure(InvalidRange) else Success(Range(start, e))
  }

  function Interval(r: Range): set<nat>
    requires r.lo <= r.hi
  {
    Elements(Expand(r.lo, r.hi))
  }

  function ReadItems(items: seq<string>, cpus: set<nat>): Result<set<nat>, ListError> {
    if items == [] then Success(cpus)
    else if items[0] == [] then ReadItems(items[1..], cpus)
    else match ParseItem(items[0])
      case Failure(e) => Failure(e)
      case Success(r) => ReadItems(items[1..], cpus + Interval(r))
  }

  function Read(value: string): Result<seq<nat>, ListError> {
    match ReadItems(Split(Trim(value), ','), {})
    case Failure(e) => Failure(e)
    case Success(cpus) => if cpus == {} then Failure(EmptyList) else Success(Ascend(cpus))
  }

  method ParseCpuList(value: string) returns (r: Result<seq<nat>, ListError>)
    ensures r == Read(value)
  {
    var cpus: set<nat> := {};
    var items := Split(Trim(value), ',');
    for i := 0 to |items|
      invariant ReadItems(items, {}) == ReadItems(items[i..], cpus)
    {
      assert items[i..][1..] == items[i + 1..];
      if items[i] != [] {
        var range := ParseItem(items[i]);
        if range.Failure? {
          return Failure(range.error);
        }
        cpus := cpus + Interval(range.value);
      }
    }
    if cpus == {} {
      return Failure(EmptyList);
    }
    return Success(Ascend(cpus));
  }

  // ---------------------------------------------------------------- the grammar

  lemma {:induction false} SplitJoin(s: string, sep: char)
    ensures Join(Split(s, sep), sep) == s
    ensures forall part | part in Split(s, sep) :: sep !in part
  {
    if s != [] {
      SplitJoin(s[1..], sep);
      var rest, parts := Split(s[1..], sep), Split(s, sep);
      if s[0] == sep {
        assert parts[1..] == rest;
      } else {
        assert parts[1..] == rest[1..];
        assert rest[0] in rest;
        forall part | part in parts ensures sep !in part {
          assert part == [s[0]] + rest[0] || part in rest;
        }
      }
    }
  }

  /** Splitting undoes joining: a list of parts without separators is recovered. */
  lemma {:induction false} JoinSplit(parts: seq<string>, sep: char)
    requires parts != [] && forall part | part in parts :: sep !in part
    ensures Split(Join(parts, sep), sep) == parts
    decreases |parts|, |parts[0]|
  {
    var s := Join(parts, sep);
    if parts[0] != [] {
      assert parts[0] in parts;
      var tail := [parts[0][1..]] + parts[1..];
      forall part | part in tail ensures sep !in part {
        assert part == parts[0][1..] || part in parts;
      }
      JoinSplit(tail, sep);
      assert s[0] == parts[0][0];
      assert s[1..] == Join(tail, sep);
      assert parts[0] == [s[0]] + tail[0] && parts[1..] == tail[1..];
    } else if |parts| > 1 {
      forall part | part in parts[1..] ensures sep !in part {
        assert part in parts;
      }
      JoinSplit(parts[1..], sep);
      assert s[1..] == Join(parts[1..], sep);
    }
  }

  /** The ten digits and what they count. */
  lemma DigitsCount()
    ensures forall c :: IsDigit(c) <==> c in {'0', '1', '2', '3', '4', '5', '6', '7', '8', '9'}
    ensures DigitValue('0') == 0 && DigitValue('1') == 1 && DigitValue('2') == 2 && DigitValue('3') == 3
    ensures DigitValue('4') == 4 && DigitValue('5') == 5 && DigitValue('6') == 6 && DigitValue('7') == 7
    ensures DigitValue('8') == 8 && DigitValue('9') == 9
  {
  }

  /** The decimal value of a string of digits, most significant first. */
  function DecimalValue(digits: string): nat
    requires forall i | 0 <= i < |digits| :: '0' <= digits[i] <= '9'
  {
    if digits == [] then 0 else
    Times(digits[0] as int - '0' as int, PowerOfTen(|digits| - 1)) + DecimalValue(digits[1..])
  }

  function Times(a: nat, b: nat): nat {
    a * b
  }

  function PowerOfTen(k: nat): nat {
    if k == 0 then 1 else 10 * PowerOfTen(k - 1)
  }

  lemma {:induction false} DecimalSnoc(digits: string, c: char)
    requires (forall i | 0 <= i < |digits| :: '0' <= digits[i] <= '9') && '0' <= c <= '9'
    ensures DecimalValue(digits + [c]) == 10 * DecimalValue(digits) + (c as int - '0' as int)
  {
    if digits == [] {
      assert digits + [c] == [c] && [c][1..] == [];
      assert DecimalValue([]) == 0 && PowerOfTen(0) == 1;
    } else {
      var rest := digits[1..];
      assert (digits + [c])[1..] == rest + [c] && (digits + [c])[0] == digits[0];
      DecimalSnoc(rest, c);
      var first := digits[0] as int - '0' as int;
      assert PowerOfTen(|digits|) == 10 * PowerOfTen(|digits| - 1);
      assert Times(first, 10 * PowerOfTen(|digits| - 1)) == 10 * Times(first, PowerOfTen(|digits| - 1));
    }
  }

  lemma {:induction false} NumberIsDecimal(digits: string)
    requires AllDigits(digits)
    ensures forall i | 0 <= i < |digits| :: '0' <= digits[i] <= '9'
    ensures NumberOf(digits) == DecimalValue(digits)
  {
    if digits != [] {
      var last := |digits| - 1;
      NumberIsDecimal(digits[..last]);
      assert digits == digits[..last] + [digits[last]];
      DecimalSnoc(digits[..last], digits[last]);
    }
  }

  /** `s` is written with digits, possibly after a plus sign, and denotes n, which fits a
      64-bit word. */
  ghost predicate InRange(s: string, n: nat) {
    && n < 0x1_0000_0000_0000_0000
    && exists digits | digits != [] && (s == digits || s == ['+'] + digits) ::
         (forall i | 0 <= i < |digits| :: '0' <= digits[i] <= '9') && DecimalValue(digits) == n
  }

  lemma DigitsOf(s: string, digits: string)
    requires digits != [] && (s == digits || s == ['+'] + digits)
    requires forall i | 0 <= i < |digits| :: '0' <= digits[i] <= '9'
    ensures Numeral(s) && NumeralValue(s) == DecimalValue(digits)
  {
    assert s == ['+'] + digits ==> s[1..] == digits;
    assert AllDigits(digits);
    NumberIsDecimal(digits);
  }

  lemma NumeralIsInRange(s: string, n: nat)
    ensures InRange(s, n) <==> Numeral(s) && NumeralValue(s) == n <= USIZE_MAX
  {
    if InRange(s, n) {
      var digits :| digits != [] && (s == digits || s == ['+'] + digits)
        && (forall i | 0 <= i < |digits| :: '0' <= digits[i] <= '9') && DecimalValue(digits) == n;
      DigitsOf(s, digits);
    }
    if Numeral(s) && NumeralValue(s) == n <= USIZE_MAX {
      var digits := if s[0] == '+' then s[1..] else s;
      NumberIsDecimal(digits);
      hide AllDigits, NumberOf, DecimalValue;
      assert s == digits || s == ['+'] + digits;
    }
  }

  /** `item` is written `a`, or `a-b` with a <= b. */
  ghost predicate Denotes(item: string, r: Range) {
    || (InRange(item, r.lo) && r.hi == r.lo)
    || (exists a, b :: item == a + ['-'] + b && InRange(a, r.lo) && InRange(b, r.hi) && r.lo <= r.hi)
  }

  lemma NumeralHasNoDash(s: string)
    requires Numeral(s)
    ensures '-' !in s
  {
    var digits := if s != [] && s[0] == '+' then s[1..] else s;
    forall i | 0 <= i < |s| ensures s[i] != '-' {
      if s[0] != '+' {
        assert IsDigit(digits[i]);
      } else if i > 0 {
        assert digits[i - 1] == s[i];
      }
    }
  }

  lemma SplitOne(item: string, sep: char)
    requires sep !in item
    ensures Split(item, sep) == [item]
  {
    JoinSplit([item], sep);
  }

  lemma SplitTwo(a: string, b: string, sep: char)
    requires sep !in a && sep !in b
    ensures Split(a + [sep] + b, sep) == [a, b]
  {
    assert [a, b][1..] == [b];
    assert Join([a, b], sep) == a + [sep] + b;
    JoinSplit([a, b], sep);
  }

  lemma ParsesOne(item: string, lo: nat)
    requires InRange(item, lo)
    ensures ParseItem(item) == Success(Range(lo, lo))
  {
    NumeralIsInRange(item, lo);
    NumeralHasNoDash(item);
    SplitOne(item, '-');
    hide Split, Numeral, NumeralValue, InRange;
  }

  lemma ParsesTwo(a: string, b: string, lo: nat, hi: nat)
    requires InRange(a, lo) && InRange(b, hi) && lo <= hi
    ensures ParseItem(a + ['-'] + b) == Success(Range(lo, hi))
  {
    NumeralIsInRange(a, lo);
    NumeralIsInRange(b, hi);
    NumeralHasNoDash(a);
    NumeralHasNoDash(b);
    SplitTwo(a, b, '-');
    hide Split, Numeral, NumeralValue, InRange;
  }

  /** The bounds of an accepted item are the parts of its split. */
  lemma ParsedBounds(item: string)
    requires ParseItem(item).Success?
    ensures var bounds, r := Split(item, '-'), ParseItem(item).value;
            && 1 <= |bounds| <= 2 && InRange(bounds[0], r.lo) && r.lo <= r.hi
            && (if |bounds| == 2 then InRange(bounds[1], r.hi) else r.hi == r.lo)
  {
    var bounds, r := Split(item, '-'), ParseItem(item).value;
    NumeralIsInRange(bounds[0], r.lo);
    if |bounds| > 1 {
      NumeralIsInRange(bounds[1], r.hi);
    }
    hide Split, Numeral, NumeralValue, InRange;
  }

  lemma JoinShort(bounds: seq<string>, sep: char)
    requires 1 <= |bounds| <= 2
    ensures Join(bounds, sep) == if |bounds| == 1 then bounds[0] else bounds[0] + [sep] + bounds[1]
  {
  }

  /** An item is accepted exactly when it is written in the grammar, with that meaning. */
  lemma ItemGrammar(item: string, r: Range)
    ensures ParseItem(item) == Success(r) <==> Denotes(item, r)
  {
    hide ParseItem, InRange, Split, Join;
    if Denotes(item, r) {
      if InRange(item, r.lo) && r.hi == r.lo {
        ParsesOne(item, r.lo);
      } else {
        var a, b :| item == a + ['-'] + b && InRange(a, r.lo) && InRange(b, r.hi) && r.lo <= r.hi;
        ParsesTwo(a, b, r.lo, r.hi);
      }
    }
    if ParseItem(item) == Success(r) {
      ParsedBounds(item);
      SplitJoin(item, '-');
      JoinShort(Split(item, '-'), '-');
    }
  }

  // ---------------------------------------------------------------- what is accepted

  predicate Parses(item: string) {
    item != [] && ParseItem(item).Success?
  }

  /** Some item of the list covers the CPU. */
  ghost predicate Covered(items: seq<string>, cpu: nat) {
    exists item | item in items :: Parses(item) && ParseItem(item).value.lo <= cpu <= ParseItem(item).value.hi
  }

  lemma IntervalHas(r: Range, cpu: nat)
    requires r.lo <= r.hi
    ensures cpu in Interval(r) <==> r.lo <= cpu <= r.hi
  {
    if r.lo <= cpu <= r.hi {
      assert Expand(r.lo, r.hi)[cpu - r.lo] == cpu;
    }
  }

  lemma {:induction false} ReadItemsExactly(items: seq<string>, cpus: set<nat>)
    ensures var r := ReadItems(items, cpus);
            && (r.Success? <==> forall item | item in items && item != [] :: Parses(item))
            && (r.Success? ==> forall cpu: nat :: cpu in r.value <==> cpu in cpus || Covered(items, cpu))
  {
    if items != [] {
      var head, rest := items[0], items[1..];
      assert head in items && forall item :: item in items <==> item == head || item in rest;
      forall cpu: nat ensures Covered(items, cpu) <==> Covered([head], cpu) || Covered(rest, cpu) {
        if Covered(items, cpu) {
          var item :| item in items && Parses(item) && ParseItem(item).value.lo <= cpu <= ParseItem(item).value.hi;
          assert item in [head] || item in rest;
        }
        if Covered([head], cpu) {
          assert Parses(head) && ParseItem(head).value.lo <= cpu <= ParseItem(head).value.hi;
        }
      }
      if head == [] {
        ReadItemsExactly(rest, cpus);
      } else if Parses(head) {
        var r := ParseItem(head).value;
        ReadItemsExactly(rest, cpus + Interval(r));
        forall cpu: nat ensures cpu in Interval(r) <==> Covered([head], cpu) {
          IntervalHas(r, cpu);
          assert head in [head];
        }
      }
    }
  }

  /** Every non-empty item is in the grammar, and there is one. */
  ghost predicate WellWritten(items: seq<string>) {
    && (forall item | item in items && item != [] :: exists r :: Denotes(item, r))
    && (exists item | item in items :: item != [])
  }

  /** The items name this CPU. */
  ghost predicate Named(items: seq<string>, cpu: nat) {
    exists item, r | item in items && Denotes(item, r) :: r.lo <= cpu <= r.hi
  }

  lemma ParsesExactly(item: string)
    requires item != []
    ensures Parses(item) <==> exists r :: Denotes(item, r)
  {
    if Parses(item) {
      ItemGrammar(item, ParseItem(item).value);
    }
    forall r | Denotes(item, r) ensures ParseItem(item) == Success(r) {
      ItemGrammar(item, r);
    }
  }

  lemma AcceptsWellWritten(items: seq<string>)
    ensures WellWritten(items) <==> ReadItems(items, {}).Success? && ReadItems(items, {}).value != {}
  {
    ReadItemsExactly(items, {});
    forall item | item in items && item != [] ensures Parses(item) <==> exists r :: Denotes(item, r) {
      ParsesExactly(item);
    }
    hide ParseItem, ReadItems, Denotes;
    var all := ReadItems(items, {});
    if all.Success? {
      if exists item | item in items :: item != [] {
        var item :| item in items && item != [];
        assert Parses(item);
        assert Covered(items, ParseItem(item).value.lo);
      }
      if all.value != {} {
        var cpu :| cpu in all.value;
        assert Covered(items, cpu);
      }
    }
  }

  lemma ReadTrimmed(value: string)
    ensures var items := Split(Trim(value), ',');
            && (Read(value).Success? <==> WellWritten(items))
            && (Read(value).Success? ==>
                  && StrictlySorted(Read(value).value, NatKey)
                  && forall cpu: nat :: cpu in Read(value).value <==> Named(items, cpu))
  {
    var items := Split(Trim(value), ',');
    AcceptsWellWritten(items);
    ReadItemsExactly(items, {});
    hide WellWritten, Named, ReadItems, Covered, Denotes, ParseItem;
    var all := ReadItems(items, {});
    if all.Success? {
      forall cpu: nat ensures cpu in Ascend(all.value) <==> Named(items, cpu) {
        CoveredDenotes(items, cpu);
        assert cpu in Ascend(all.value) <==> cpu in Elements(Ascend(all.value));
      }
    }
  }

  /** The value is some white space, the items with commas between them, and more white space,
      and no white space belongs to the ends of the items. */
  ghost predicate Lists(value: string, items: seq<string>) {
    exists before, core, after | value == before + core + after ::
      && (forall c | c in before + after :: c in WHITE_SPACE)
      && (core != [] ==> core[0] !in WHITE_SPACE && core[|core| - 1] !in WHITE_SPACE)
      && items != [] && (forall item | item in items :: ',' !in item) && core == Join(items, ',')
  }

  lemma {:induction false} TrimBlank(s: string)
    requires forall c | c in s :: IsSpace(c)
    ensures Trim(s) == []
  {
    if s != [] {
      assert s[0] in s;
      forall c | c in s[1..] ensures IsSpace(c) {
        assert c in s;
      }
      TrimBlank(s[1..]);
    }
  }

  lemma ListsTrimmed(value: string, items: seq<string>)
    requires Lists(value, items)
    ensures Split(Trim(value), ',') == items
  {
    var before, core, after :| value == before + core + after
      && (forall c | c in before + after :: c in WHITE_SPACE)
      && (core != [] ==> core[0] !in WHITE_SPACE && core[|core| - 1] !in WHITE_SPACE)
      && items != [] && (forall item | item in items :: ',' !in item) && core == Join(items, ',');
    hide *;
    TrimsTo(before, core, after);
    JoinSplit(items, ',');
  }

  lemma TrimsTo(before: string, core: string, after: string)
    requires forall c | c in before + after :: c in WHITE_SPACE
    requires core != [] ==> core[0] !in WHITE_SPACE && core[|core| - 1] !in WHITE_SPACE
    ensures Trim(before + core + after) == core
  {
    forall c: char ensures IsSpace(c) <==> c in WHITE_SPACE {
      SpaceIsWhite(c);
    }
    hide IsSpace, WHITE_SPACE, Trim;
    if core == [] {
      assert before + core + after == before + after;
      TrimBlank(before + after);
    } else {
      TrimPadding(before, core, after);
    }
  }

  /** The reader accepts exactly the lists in which every non-empty item is in the grammar
      and at least one item is not empty. It returns the union of the ranges, strictly
      ascending. */
  lemma ReadExactly(value: string, items: seq<string>)
    requires Lists(value, items)
    ensures Read(value).Success? <==> WellWritten(items)
    ensures Read(value).Success? ==>
              && (forall i, j | 0 <= i < j < |Read(value).value| :: Read(value).value[i] < Read(value).value[j])
              && forall cpu: nat :: cpu in Read(value).value <==> Named(items, cpu)
  {
    ListsTrimmed(value, items);
    ReadTrimmed(value);
    hide Lists, Read, WellWritten, Named;
    if Read(value).Success? {
      NumbersAscend(Read(value).value);
    }
  }

  lemma NumbersAscend(s: seq<nat>)
    requires StrictlySorted(s, NatKey)
    ensures forall i, j | 0 <= i < j < |s| :: s[i] < s[j]
  {
    forall i, j | 0 <= i < j < |s| ensures s[i] < s[j] {
      assert Lt(NatKey(s[i]), NatKey(s[j]));
    }
  }

  /** Nothing but white space, or nothing at all, is an empty list. */
  lemma BlankIsEmpty(value: string)
    requires forall c | c in value :: c in WHITE_SPACE
    ensures Read(value) == Failure(EmptyList)
  {
    forall c | c in value ensures IsSpace(c) {
      SpaceIsWhite(c);
    }
    hide IsSpace, WHITE_SPACE;
    TrimBlank(value);
    hide Trim;
    var items: seq<string> := [[]];
    assert Split([], ',') == items;
    assert ReadItems(items, {}) == ReadItems(items[1..], {}) == Success({});
  }

  // ---------------------------------------------------------------- what a refusal says

  /** The parts between the dashes of an item: the first is no number in range; or the second is
      none; or both are, but there is a third or the second is smaller. */
  ghost predicate Misfit(parts: seq<string>, e: ListError)
    requires parts != []
  {
    match e
    case InvalidStart => forall n: nat :: !InRange(parts[0], n)
    case InvalidEnd =>
      |parts| > 1 && (exists n: nat :: InRange(parts[0], n)) && forall n: nat :: !InRange(parts[1], n)
    case InvalidRange =>
      |parts| > 1 && exists a: nat, b: nat | InRange(parts[0], a) && InRange(parts[1], b) :: |parts| > 2 || b < a
    case EmptyList => false
  }

  ghost predicate Misfits(item: string, e: ListError) {
    exists parts | parts != [] && (forall part | part in parts :: '-' !in part) ::
      item == Join(parts, '-') && Misfit(parts, e)
  }

  /** There is no item at all; or the first one that is not in the grammar is at fault. */
  ghost predicate Faults(items: seq<string>, e: ListError) {
    if forall item | item in items :: item == [] then e == EmptyList
    else exists i | 0 <= i < |items| ::
      && items[i] != [] && Misfits(items[i], e)
      && forall k | 0 <= k < i :: items[k] == [] || exists r :: Denotes(items[k], r)
  }

  lemma InRangeParses(s: string)
    ensures forall n: nat :: InRange(s, n) <==> ParseUsize(s) == Some(n)
  {
    forall n: nat ensures InRange(s, n) <==> ParseUsize(s) == Some(n) {
      NumeralIsInRange(s, n);
    }
  }

  lemma ItemMisfits(item: string)
    requires ParseItem(item).Failure?
    ensures Misfits(item, ParseItem(item).error)
  {
    var parts, e := Split(item, '-'), ParseItem(item).error;
    SplitJoin(item, '-');
    InRangeParses(parts[0]);
    if |parts| > 1 {
      InRangeParses(parts[1]);
    }
    hide Split, Join, InRange, ParseUsize;
    assert Misfit(parts, e) by {
      if e.InvalidEnd? || e.InvalidRange? {
        assert InRange(parts[0], ParseUsize(parts[0]).value);
      }
      if e.InvalidRange? {
        assert InRange(parts[1], ParseUsize(parts[1]).value);
      }
    }
  }

  /** The item at which reading stops. */
  lemma {:induction false} StopsAt(items: seq<string>, cpus: set<nat>) returns (i: nat)
    requires ReadItems(items, cpus).Failure?
    ensures i < |items| && items[i] != [] && ParseItem(items[i]) == Failure(ReadItems(items, cpus).error)
    ensures forall k | 0 <= k < i :: items[k] == [] || Parses(items[k])
  {
    hide ParseItem;
    if items[0] == [] {
      var k := StopsAt(items[1..], cpus);
      i := k + 1;
    } else if ParseItem(items[0]).Success? {
      var k := StopsAt(items[1..], cpus + Interval(ParseItem(items[0]).value));
      i := k + 1;
    } else {
      i := 0;
    }
  }

  /** A refusal is about the first item that is not in the grammar, if there is one. */
  lemma RefusesFirstFault(value: string, items: seq<string>)
    requires Lists(value, items) && Read(value).Failure?
    ensures Faults(items, Read(value).error)
  {
    ListsTrimmed(value, items);
    if ReadItems(items, {}).Failure? {
      var i := StopsAt(items, {});
      ItemMisfits(items[i]);
      hide Lists, Misfits, ParseItem, ReadItems, Denotes;
      forall k | 0 <= k < i ensures items[k] == [] || exists r :: Denotes(items[k], r) {
        if items[k] != [] {
          ParsesExactly(items[k]);
        }
      }
      assert items[i] in items;
    } else {
      AcceptsWellWritten(items);
      ReadItemsExactly(items, {});
      hide Lists, ParseItem, ReadItems, Denotes;
      forall item | item in items && item != [] ensures exists r :: Denotes(item, r) {
        ParsesExactly(item);
      }
    }
  }

  lemma CoveredDenotes(items: seq<string>, cpu: nat)
    ensures Covered(items, cpu) <==> Named(items, cpu)
  {
    if Covered(items, cpu) {
      var item :| item in items && Parses(item) && ParseItem(item).value.lo <= cpu <= ParseItem(item).value.hi;
      ItemGrammar(item, ParseItem(item).value);
    }
    if Named(items, cpu) {
      var item, r :| item in items && Denotes(item, r) && r.lo <= cpu <= r.hi;
      ItemGrammar(item, r);
    }
  }

  // ---------------------------------------------------------------- writing and reading back

  function Item(s: Segment): string {
    if s.end > s.start then Decimal(s.start) + ['-'] + Decimal(s.end) else Decimal(s.start)
  }

  /** The kernel's spelling of a list of runs. */
  function Render(segments: seq<Segment>): string
    requires segments != []
  {
    Join(Map(segments, Item), ',')
  }

  ghost predicate Fits(segments: seq<Segment>) {
    forall i | 0 <= i < |segments| :: segments[i].start <= segments[i].end <= USIZE_MAX
  }

  lemma DecimalIsNumeral(n: nat)
    requires n <= USIZE_MAX
    ensures InRange(Decimal(n), n)
  {
    assert IsDigit(Decimal(n)[0]);
    NumeralIsInRange(Decimal(n), n);
    hide InRange, Decimal;
  }

  lemma DecimalCharacters(n: nat)
    ensures ',' !in Decimal(n)
    ensures !IsSpace(Decimal(n)[0]) && !IsSpace(Decimal(n)[|Decimal(n)| - 1])
  {
    var s := Decimal(n);
    assert IsDigit(s[0]) && IsDigit(s[|s| - 1]);
  }

  lemma ItemCharacters(s: Segment)
    ensures Item(s) != [] && ',' !in Item(s)
    ensures !IsSpace(Item(s)[0]) && !IsSpace(Item(s)[|Item(s)| - 1])
  {
    DecimalCharacters(s.start);
    DecimalCharacters(s.end);
    hide Decimal, IsSpace;
    if s.end > s.start {
      var b := Decimal(s.end);
      assert Item(s)[|Item(s)| - 1] == b[|b| - 1];
    }
  }

  lemma ItemReadsBack(s: Segment)
    requires s.start <= s.end <= USIZE_MAX
    ensures ParseItem(Item(s)) == Success(Range(s.start, s.end)) && Item(s) != []
  {
    DecimalIsNumeral(s.start);
    DecimalIsNumeral(s.end);
    hide Decimal, ParseItem;
    ItemGrammar(Item(s), Range(s.start, s.end));
  }

  lemma {:induction false} JoinEnds(parts: seq<string>, sep: char)
    requires parts != [] && forall i | 0 <= i < |parts| :: parts[i] != []
    ensures var s := Join(parts, sep);
            var last := parts[|parts| - 1];
            s != [] && s[0] == parts[0][0] && s[|s| - 1] == last[|last| - 1]
  {
    if |parts| > 1 {
      JoinEnds(parts[1..], sep);
      assert Join(parts, sep) == parts[0] + [sep] + Join(parts[1..], sep);
      hide Join;
    }
  }

  lemma {:induction false} TrimPadding(before: string, s: string, after: string)
    requires s != [] && !IsSpace(s[0]) && !IsSpace(s[|s| - 1])
    requires forall c | c in before + after :: IsSpace(c)
    ensures Trim(before + s + after) == s
    decreases |before|, |after|
  {
    var whole := before + s + after;
    if before != [] {
      assert before[0] in before + after;
      forall c | c in before[1..] + after ensures IsSpace(c) {
        assert c in before + after;
      }
      TrimPadding(before[1..], s, after);
      assert whole[1..] == before[1..] + s + after;
    } else {
      assert TrimStart(whole) == whole;
      if after != [] {
        assert after[|after| - 1] in before + after;
        forall c | c in before + after[..|after| - 1] ensures IsSpace(c) {
          assert c in before + after;
        }
        TrimPadding(before, s, after[..|after| - 1]);
        assert whole[..|whole| - 1] == before + s + after[..|after| - 1];
        assert TrimStart(whole[..|whole| - 1]) == whole[..|whole| - 1];
      } else {
        assert whole == s;
      }
    }
  }

  lemma {:induction false} ExpandHas(segments: seq<Segment>, cpu: nat)
    requires ValidSegments(segments)
    ensures cpu in ExpandAll(segments) <==> exists s | s in segments :: s.start <= cpu <= s.end
  {
    if segments != [] {
      var front, last := segments[..|segments| - 1], segments[|segments| - 1];
      ExpandHas(front, cpu);
      IntervalHas(Range(last.start, last.end), cpu);
      assert segments == front + [last];
    }
  }

  lemma RenderedCovers(segments: seq<Segment>, cpu: nat)
    requires Fits(segments)
    ensures Covered(Map(segments, Item), cpu) <==> cpu in ExpandAll(segments)
  {
    var items := Map(segments, Item);
    ExpandHas(segments, cpu);
    if Covered(items, cpu) {
      var item :| item in items && Parses(item) && ParseItem(item).value.lo <= cpu <= ParseItem(item).value.hi;
      var i :| 0 <= i < |items| && items[i] == item;
      ItemReadsBack(segments[i]);
      assert segments[i] in segments;
    }
    if exists s | s in segments :: s.start <= cpu <= s.end {
      var s :| s in segments && s.start <= cpu <= s.end;
      var i :| 0 <= i < |segments| && segments[i] == s;
      ItemReadsBack(s);
      assert items[i] == Item(s) && Parses(items[i]);
    }
  }

  lemma RenderedItemsRead(segments: seq<Segment>)
    requires segments != [] && Fits(segments)
    ensures ReadItems(Map(segments, Item), {}) == Success(Elements(ExpandAll(segments)))
    ensures ExpandAll(segments) != []
  {
    var items := Map(segments, Item);
    forall i | 0 <= i < |segments| ensures Parses(items[i]) {
      ItemReadsBack(segments[i]);
    }
    ReadItemsExactly(items, {});
    hide Item, ParseItem, ExpandAll, ReadItems, Parses, Covered;
    var all := ReadItems(items, {}).value;
    forall cpu: nat ensures cpu in all <==> cpu in ExpandAll(segments) {
      RenderedCovers(segments, cpu);
    }
    assert all == Elements(ExpandAll(segments));
    ExpandHas(segments, segments[0].start);
    assert segments[0] in segments;
  }

  lemma RenderedItemsSplit(segments: seq<Segment>, before: string, after: string)
    requires segments != []
    requires forall c | c in before + after :: IsSpace(c)
    ensures Split(Trim(before + Render(segments) + after), ',') == Map(segments, Item)
  {
    var items := Map(segments, Item);
    forall i | 0 <= i < |segments|
      ensures items[i] != [] && ',' !in items[i]
      ensures !IsSpace(items[i][0]) && !IsSpace(items[i][|items[i]| - 1])
    {
      ItemCharacters(segments[i]);
    }
    hide Item, IsSpace, Split, Trim, Join;
    JoinEnds(items, ',');
    TrimPadding(before, Render(segments), after);
    JoinSplit(items, ',');
  }

  /** Whatever runs are written, in whatever order and with whatever white space around
      them, reading the line gives the set of CPUs they cover. */
  lemma ReadsBackRuns(segments: seq<Segment>, before: string, after: string)
    requires segments != [] && Fits(segments)
    requires forall c | c in before + after :: c in WHITE_SPACE
    ensures Read(before + Render(segments) + after) == Success(Ascend(Elements(ExpandAll(segments))))
  {
    forall c | c in before + after ensures IsSpace(c) {
      SpaceIsWhite(c);
    }
    hide WHITE_SPACE;
    RenderedItemsSplit(segments, before, after);
    RenderedItemsRead(segments);
    hide Split, Trim, Render, ReadItems, Item, ExpandAll, IsSpace;
    assert ExpandAll(segments)[0] in Elements(ExpandAll(segments));
  }

  lemma RunsFit(list: seq<nat>)
    requires list != [] && forall cpu | cpu in list :: cpu <= USIZE_MAX
    ensures Runs(list) != [] && Fits(Runs(list)) && ExpandAll(Runs(list)) == list
  {
    var runs := Runs(list);
    RunsExpandBack(list);
    assert runs != [];
    hide Runs, ExpandAll;
    forall i | 0 <= i < |runs| ensures runs[i].end <= USIZE_MAX {
      ExpandHas(runs, runs[i].end);
      assert runs[i] in runs;
    }
  }

  lemma AscendInRange(cpus: set<nat>)
    requires cpus != {} && forall cpu | cpu in cpus :: cpu <= USIZE_MAX
    ensures Ascend(cpus) != [] && forall cpu | cpu in Ascend(cpus) :: cpu <= USIZE_MAX
  {
    hide *;
    assert Elements(Ascend(cpus)) == cpus;
    ElementsHave(Ascend(cpus));
  }

  lemma ElementsHave(s: seq<nat>)
    ensures forall x :: x in s <==> x in Elements(s)
    ensures s == [] <==> Elements(s) == {}
  {
    if s != [] {
      assert s[0] in Elements(s);
    }
  }

  lemma Unpadded(s: string)
    ensures [] + s + [] == s
  {
  }

  /** Writing any non-empty set of CPUs as maximal runs and reading it back is the identity. */
  lemma SetRoundTrip(cpus: set<nat>)
    requires cpus != {} && forall cpu | cpu in cpus :: cpu <= USIZE_MAX
    ensures var runs := Runs(Ascend(cpus));
            runs != [] && Read(Render(runs)) == Success(Ascend(cpus))
  {
    hide *;
    var list := Ascend(cpus);
    AscendInRange(cpus);
    RunsFit(list);
    ReadsBackRuns(Runs(list), [], []);
    Unpadded(Render(Runs(list)));
  }

  /** The kernel ends the line with a newline. */
  lemma KernelLine(segments: seq<Segment>)
    requires segments != [] && Fits(segments)
    ensures Read(Render(segments) + ['\n']) == Success(Ascend(Elements(ExpandAll(segments))))
  {
    NewlineIsWhite();
    hide *;
    ReadsBackRuns(segments, [], ['\n']);
    NothingBefore(Render(segments), ['\n']);
  }

  lemma NewlineIsWhite()
    ensures forall c | c in [] + ['\n'] :: c in WHITE_SPACE
  {
    assert '\n' in WHITE_SPACE;
    hide WHITE_SPACE;
  }

  lemma NothingBefore(s: string, after: string)
    ensures [] + s + after == s + after
  {
  }

  lemma JoinCons(part: string, parts: seq<string>, sep: char)
    requires parts != []
    ensures Join([part] + parts, sep) == part + [sep] + Join(parts, sep)
  {
    assert ([part] + parts)[1..] == parts;
  }

  lemma SampleText()
    ensures Render([Segment(0, 3), Segment(8, 8), Segment(10, 11)]) == "0-3,8,10-11"
  {
    var runs := [Segment(0, 3), Segment(8, 8), Segment(10, 11)];
    SampleItems();
    var last: seq<string> := ["10-11"];
    assert Join(last, ',') == "10-11";
    JoinCons("8", last, ',');
    JoinCons("0-3", ["8"] + last, ',');
    hide Item, Join;
    assert Map(runs, Item) == ["0-3"] + (["8"] + last);
    assert "0-3" + [','] + ("8" + [','] + "10-11") == "0-3,8,10-11";
  }

  lemma SampleItems()
    ensures Item(Segment(0, 3)) == "0-3" && Item(Segment(8, 8)) == "8" && Item(Segment(10, 11)) == "10-11"
  {
    assert Decimal(0) == "0" && Decimal(3) == "3" && Decimal(8) == "8" && Decimal(1) == "1";
    assert Decimal(10) == "10" && Decimal(11) == "11";
    hide Decimal;
  }

  lemma SampleCpus()
    ensures Fits([Segment(0, 3), Segment(8, 8), Segment(10, 11)])
    ensures ExpandAll([Segment(0, 3), Segment(8, 8), Segment(10, 11)]) == [0, 1, 2, 3, 8, 10, 11]
  {
    var none: seq<Segment> := [];
    assert ExpandAll(none) == [];
    assert Expand(0, 3) == [0, 1, 2, 3] && Expand(8, 8) == [8] && Expand(10, 11) == [10, 11];
    assert none + [Segment(0, 3)] + [Segment(8, 8)] + [Segment(10, 11)]
        == [Segment(0, 3), Segment(8, 8), Segment(10, 11)];
    hide Expand, ExpandAll;
    ExpandAllSnoc(none, Segment(0, 3));
    ExpandAllSnoc(none + [Segment(0, 3)], Segment(8, 8));
    ExpandAllSnoc(none + [Segment(0, 3)] + [Segment(8, 8)], Segment(10, 11));
  }

  /** For instance. */
  lemma ReadsSample()
    ensures Read("0-3,8,10-11\n") == Success([0, 1, 2, 3, 8, 10, 11])
  {
    var runs := [Segment(0, 3), Segment(8, 8), Segment(10, 11)];
    SampleText();
    SampleCpus();
    var cpus: seq<nat> := [0, 1, 2, 3, 8, 10, 11];
    assert StrictlySorted(cpus, NatKey);
    assert "0-3,8,10-11" + ['\n'] == "0-3,8,10-11\n";
    hide *;
    KernelLine(runs);
    AscendUnique(cpus);
  }
}
