/**
 * The time-field matcher of `CronJob`: classifies one of the five time
 * fields of a rule by the characters it contains and decides whether a
 * value of "now" satisfies it. Every `int.Parse` the source performs can
 * throw, so matching returns a `Result`.
 */
module TimeFields {
  import opened Wrappers
  import opened Text
  import opened Int32Text

  /** `ValueType`: the four syntactic forms of a time field. */
  datatype FieldKind = Number | Wildcard | Range | List

  /** The exception `int.Parse` throws, with the text it was given. */
  datatype FieldError = NotAnInt(text: string)

  /**
   * `GetValueTypeFromString`: a comma makes a list whatever else the field
   * holds, then a dash makes a range, then a star a wildcard; anything else
   * is taken for a number.
   */
  function Classify(field: string): (k: FieldKind)
    ensures k == List <==> ',' in field
    ensures k == Range <==> ',' !in field && '-' in field
    ensures k == Wildcard <==> ',' !in field && '-' !in field && '*' in field
    ensures k == Number <==> ',' !in field && '-' !in field && '*' !in field
  {
    if ',' in field then List
    else if '-' in field then Range
    else if '*' in field then Wildcard
    else Number
  }

  /** `int.Parse(text)`, throwing `FieldError` where .NET throws. */
  function ParseField(text: string): (r: Result<int, FieldError>)
    ensures r.Success? <==> ParseInt32(text).Some?
    ensures r.Success? ==> r.value == ParseInt32(text).value
    ensures r.Failure? ==> r.error == NotAnInt(text)
  {
    match ParseInt32(text)
    case Some(n) => Success(n)
    case None => Failure(NotAnInt(text))
  }

  /** The first two pieces of a range field split at `-`. */
  function RangeEnds(field: string): (e: (string, string))
    requires '-' in field
    ensures e.0 in Split(field, '-') && e.1 in Split(field, '-')
  {
    var parts := Split(field, '-');
    assert Occurrences(field, '-') >= 1 by { OccurrencesPositive(field, '-'); }
    (parts[0], parts[1])
  }

  lemma {:induction false} OccurrencesPositive(s: string, c: char)
    requires c in s
    ensures Occurrences(s, c) >= 1
    decreases |s|
  {
    if s[0] != c {
      assert c in s[1..];
      OccurrencesPositive(s[1..], c);
    }
  }

  /**
   * `WithinRange`: `lo <= v && v <= hi` with `lo` and `hi` parsed from the
   * first two pieces of the field. The `&&` short-circuits: when `v` is
   * below `lo` the upper end is never parsed, so a malformed upper end is
   * an error only when `v >= lo`.
   */
  function WithinRange(field: string, v: int): (r: Result<bool, FieldError>)
    requires '-' in field
    ensures var (a, b) := RangeEnds(field);
            && (r == Success(true) <==>
                  ParseInt32(a).Some? && ParseInt32(b).Some?
                  && ParseInt32(a).value <= v <= ParseInt32(b).value)
            && (r.Failure? <==>
                  ParseInt32(a).None? || (ParseInt32(a).value <= v && ParseInt32(b).None?))
            && (r.Failure? ==> ParseInt32(r.error.text).None?)
            && (r.Failure? ==> r.error.text == a || r.error.text == b)
  {
    var (a, b) := RangeEnds(field);
    match ParseField(a)
    case Failure(e) => Failure(e)
    case Success(lo) =>
      if !(v >= lo) then Success(false)
      else
        match ParseField(b)
        case Failure(e) => Failure(e)
        case Success(hi) => Success(v <= hi)
  }

  /** A list element parses to a value other than `v`. */
  predicate Misses(part: string, v: int)
  {
    ParseInt32(part).Some? && ParseInt32(part).value != v
  }

  /** Every element of `parts` before index `k` parses to a value other than `v`. */
  predicate MissesBefore(parts: seq<string>, k: int, v: int)
    requires 0 <= k <= |parts|
  {
    forall j :: 0 <= j < k ==> Misses(parts[j], v)
  }

  /**
   * The `foreach` of `InList` over the comma-separated elements: true at the
   * first element that parses to `v`, an error naming the first element that
   * does not parse if that comes before any hit.
   */
  function ScanList(parts: seq<string>, v: int): (r: Result<bool, FieldError>)
    ensures r.Failure? ==> r.error.text in parts && ParseInt32(r.error.text).None?
  {
    if |parts| == 0 then Success(false)
    else
      match ParseField(parts[0])
      case Failure(e) => Failure(e)
      case Success(n) => if n == v then Success(true) else ScanList(parts[1..], v)
  }

  /**
   * `InList` finds `v` exactly when some element parses to `v` and every
   * element before it parses to something else.
   */
  lemma {:induction false} ScanListHit(parts: seq<string>, v: int)
    ensures ScanList(parts, v) == Success(true) <==>
              exists k :: 0 <= k < |parts| && MissesBefore(parts, k, v) && ParseInt32(parts[k]) == Some(v)
    decreases |parts|
  {
    if |parts| > 0 {
      if Misses(parts[0], v) {
        ScanListHit(parts[1..], v);
        ScanListShift(parts, v);
        if ScanList(parts, v) == Success(true) {
          var k :| 0 <= k < |parts| - 1 && MissesBefore(parts[1..], k, v) && ParseInt32(parts[1..][k]) == Some(v);
          assert parts[k + 1] == parts[1..][k];
          assert MissesBefore(parts, k + 1, v);
        }
        if exists k :: 0 <= k < |parts| && MissesBefore(parts, k, v) && ParseInt32(parts[k]) == Some(v) {
          var k :| 0 <= k < |parts| && MissesBefore(parts, k, v) && ParseInt32(parts[k]) == Some(v);
          assert k != 0;
          assert parts[k] == parts[1..][k - 1];
          assert MissesBefore(parts[1..], k - 1, v);
        }
      } else {
        assert MissesBefore(parts, 0, v);
      }
    }
  }

  /** `InList` is false exactly when every element parses and none is `v`. */
  lemma {:induction false} ScanListMiss(parts: seq<string>, v: int)
    ensures ScanList(parts, v) == Success(false) <==> MissesBefore(parts, |parts|, v)
    decreases |parts|
  {
    if |parts| > 0 {
      if Misses(parts[0], v) {
        ScanListMiss(parts[1..], v);
        ScanListShift(parts, v);
      } else {
        assert !MissesBefore(parts, |parts|, v);
      }
    }
  }

  /**
   * `InList` throws exactly when some element fails to parse and every
   * element before it parses to something other than `v`: an unparsable
   * element after a hit is never read.
   */
  lemma {:induction false} ScanListError(parts: seq<string>, v: int)
    ensures ScanList(parts, v).Failure? <==>
              exists k :: 0 <= k < |parts| && MissesBefore(parts, k, v) && ParseInt32(parts[k]).None?
    decreases |parts|
  {
    if |parts| > 0 {
      if Misses(parts[0], v) {
        ScanListError(parts[1..], v);
        ScanListShift(parts, v);
        if ScanList(parts, v).Failure? {
          var k :| 0 <= k < |parts| - 1 && MissesBefore(parts[1..], k, v) && ParseInt32(parts[1..][k]).None?;
          assert parts[k + 1] == parts[1..][k];
          assert MissesBefore(parts, k + 1, v);
        }
        if exists k :: 0 <= k < |parts| && MissesBefore(parts, k, v) && ParseInt32(parts[k]).None? {
          var k :| 0 <= k < |parts| && MissesBefore(parts, k, v) && ParseInt32(parts[k]).None?;
          assert k != 0;
          assert parts[k] == parts[1..][k - 1];
          assert MissesBefore(parts[1..], k - 1, v);
        }
      } else {
        assert MissesBefore(parts, 0, v);
      }
    }
  }

  /** Indices into the tail of a list after a first element that misses. */
  lemma ScanListShift(parts: seq<string>, v: int)
    requires |parts| >= 1 && Misses(parts[0], v)
    ensures forall k :: 0 <= k <= |parts| - 1 ==>
              (MissesBefore(parts[1..], k, v) <==> MissesBefore(parts, k + 1, v))
  {
    forall k | 0 <= k <= |parts| - 1
      ensures MissesBefore(parts[1..], k, v) <==> MissesBefore(parts, k + 1, v)
    {
      if MissesBefore(parts, k + 1, v) {
        forall j | 0 <= j < k ensures Misses(parts[1..][j], v) {
          assert parts[1..][j] == parts[j + 1];
        }
      }
      if MissesBefore(parts[1..], k, v) {
        forall j | 0 <= j < k + 1 ensures Misses(parts[j], v) {
          if j > 0 { assert parts[j] == parts[1..][j - 1]; }
        }
      }
    }
  }

  /**
   * `InList`: scans the pieces of the field split at `,`. A failure names
   * one of those pieces, and one that `int.Parse` rejects.
   */
  function InList(field: string, v: int): (r: Result<bool, FieldError>)
    ensures r.Failure? ==> r.error.text in Split(field, ',') && ParseInt32(r.error.text).None?
  {
    ScanList(Split(field, ','), v)
  }

  /**
   * `CanRun`: dispatches on the field's class. A wildcard never fails, and
   * a failure always names a piece of the field that `int.Parse` rejects.
   * The source's fall-through `ArgumentException` is unreachable because the
   * switch covers every class.
   */
  function CanRun(field: string, v: int): (r: Result<bool, FieldError>)
    ensures Classify(field) == Wildcard ==> r == Success(true)
    ensures r.Failure? ==> ParseInt32(r.error.text).None? && PieceOf(r.error.text, field)
  {
    match Classify(field)
    case Wildcard => Success(true)
    case Number =>
      (match ParseField(field)
       case Failure(e) => Failure(e)
       case Success(n) => Success(n == v))
    case Range => WithinRange(field, v)
    case List => InList(field, v)
  }

  /**
   * The texts `CanRun` may hand to `int.Parse`: the whole field, a piece of
   * it split at `-`, or a piece of it split at `,`.
   */
  predicate PieceOf(text: string, field: string)
  {
    text == field || text in Split(field, '-') || text in Split(field, ',')
  }

  /** A number field matches exactly the value it parses to and throws when it does not parse. */
  lemma NumberFieldMatches(field: string, v: int)
    requires Classify(field) == Number
    ensures CanRun(field, v) == Success(true) <==> ParseInt32(field) == Some(v)
    ensures CanRun(field, v).Failure? <==> ParseInt32(field).None?
  {
  }

  /** A rendered natural number is a number field. */
  lemma ShowNatIsNumber(n: nat)
    ensures Classify(ShowNat(n)) == Number
  {
    var d := ShowNat(n);
    assert forall c :: c in d ==> IsDigit(c);
  }

  /** The field `"n"` matches `v` exactly when `v` is `n`. */
  lemma NumberMatches(n: nat, v: int)
    requires n <= Int32Max
    ensures CanRun(ShowNat(n), v) == Success(n == v)
  {
    ShowNatIsNumber(n);
    ParseShowInt(n);
  }

  /** The first two pieces of `a-b` followed by nothing or by more `-` pieces are `a` and `b`. */
  lemma RangeEndsOf(a: string, b: string, tail: string)
    requires '-' !in a && '-' !in b
    requires tail == [] || tail[0] == '-'
    ensures '-' in a + "-" + b + tail
    ensures RangeEnds(a + "-" + b + tail) == (a, b)
  {
    var field := a + "-" + b + tail;
    assert field[|a|] == '-';
    assert field == a + ['-'] + (b + tail);
    SplitHead(a, '-', b + tail);
    if tail == [] {
      assert b + tail == b;
      SplitNoSeparator(b, '-');
    } else {
      assert b + tail == b + ['-'] + tail[1..];
      SplitHead(b, '-', tail[1..]);
    }
  }

  /**
   * The range field `"lo-hi"` matches `v` exactly when `lo <= v <= hi`,
   * inclusive at both ends; anything after a second `-` is ignored.
   */
  lemma RangeMatches(lo: nat, hi: nat, tail: string, v: int)
    requires lo <= Int32Max && hi <= Int32Max
    requires tail == [] || tail[0] == '-'
    requires ',' !in tail
    ensures CanRun(ShowNat(lo) + "-" + ShowNat(hi) + tail, v) == Success(lo <= v <= hi)
  {
    var a, b := ShowNat(lo), ShowNat(hi);
    ShowNatIsNumber(lo);
    ShowNatIsNumber(hi);
    RangeFieldShape(a, b, tail);
    ParseShowInt(lo);
    ParseShowInt(hi);
  }

  /** `a-b` with a `-` tail and no comma anywhere is a range field with ends `a` and `b`. */
  lemma RangeFieldShape(a: string, b: string, tail: string)
    requires '-' !in a && '-' !in b && ',' !in a && ',' !in b
    requires tail == [] || tail[0] == '-'
    requires ',' !in tail
    ensures Classify(a + "-" + b + tail) == Range
    ensures RangeEnds(a + "-" + b + tail) == (a, b)
  {
    var field := a + "-" + b + tail;
    RangeEndsOf(a, b, tail);
    assert ',' !in field by {
      forall i | 0 <= i < |field| ensures field[i] != ',' {
        if i < |a| { assert field[i] == a[i]; }
        else if i == |a| { }
        else if i < |a| + 1 + |b| { assert field[i] == b[i - |a| - 1]; }
        else { assert field[i] == tail[i - |a| - 1 - |b|]; }
      }
    }
  }

  /**
   * Below the lower end a range field is false without its upper end being
   * read: `"lo-junk"` is not an error for `v < lo`.
   */
  lemma RangeShortCircuit(lo: nat, junk: string, v: int)
    requires lo <= Int32Max && v < lo
    requires ',' !in junk
    ensures CanRun(ShowNat(lo) + "-" + junk, v) == Success(false)
  {
    var a := ShowNat(lo);
    ShowNatIsNumber(lo);
    RangeLowerShape(a, junk);
    ParseShowInt(lo);
  }

  /** `a-rest` with no comma anywhere is a range field whose lower end is `a`. */
  lemma RangeLowerShape(a: string, rest: string)
    requires '-' !in a && ',' !in a && ',' !in rest
    ensures Classify(a + "-" + rest) == Range
    ensures RangeEnds(a + "-" + rest).0 == a
  {
    var field := a + "-" + rest;
    assert field == a + ['-'] + rest;
    SplitHead(a, '-', rest);
    assert field[|a|] == '-';
    assert ',' !in field by {
      forall i | 0 <= i < |field| ensures field[i] != ',' {
        if i < |a| { assert field[i] == a[i]; }
        else if i > |a| { assert field[i] == rest[i - |a| - 1]; }
      }
    }
  }

  /**
   * A negative number is classified as a range whose lower end is the empty
   * text, so it never matches: it is a parse error.
   */
  lemma NegativeNumberIsError(n: nat, v: int)
    ensures CanRun("-" + ShowNat(n), v) == Failure(NotAnInt(""))
  {
    var field := "-" + ShowNat(n);
    ShowNatIsNumber(n);
    assert field == [] + ['-'] + ShowNat(n);
    SplitHead([], '-', ShowNat(n));
    assert field[0] == '-';
    assert ',' !in field by {
      forall i | 0 <= i < |field| ensures field[i] != ',' {
        if i > 0 { assert field[i] == ShowNat(n)[i - 1]; }
      }
    }
  }

  /** The renderings of a list of numbers. */
  function Render(ns: seq<nat>): (r: seq<string>)
    ensures |r| == |ns|
    ensures forall i :: 0 <= i < |r| ==> r[i] == ShowNat(ns[i])
  {
    seq(|ns|, i requires 0 <= i < |ns| => ShowNat(ns[i]))
  }

  /** The elements of a rendered list all parse, so `InList` is plain membership. */
  lemma {:induction false} ScanRendered(ns: seq<nat>, v: int)
    requires forall i :: 0 <= i < |ns| ==> ns[i] <= Int32Max
    ensures ScanList(Render(ns), v) == Success(v in ns)
    decreases |ns|
  {
    if |ns| > 0 {
      ParseShowInt(ns[0]);
      assert Render(ns)[1..] == Render(ns[1..]);
      ScanRendered(ns[1..], v);
      assert v in ns <==> v == ns[0] || v in ns[1..];
    }
  }

  /** The list field `"n1,n2,..."` matches `v` exactly when `v` is one of the `ni`. */
  lemma ListMatches(ns: seq<nat>, v: int)
    requires |ns| >= 2
    requires forall i :: 0 <= i < |ns| ==> ns[i] <= Int32Max
    ensures CanRun(Join(Render(ns), ","), v) == Success(v in ns)
  {
    var parts := Render(ns);
    var field := Join(parts, ",");
    forall i | 0 <= i < |parts| ensures ',' !in parts[i] {
      ShowNatIsNumber(ns[i]);
    }
    SplitJoin(parts, ',');
    assert Occurrences(field, ',') == |ns| - 1;
    OccurrencesNoneAbsent(field, ',');
    ScanRendered(ns, v);
  }

  lemma {:induction false} OccurrencesNoneAbsent(s: string, c: char)
    requires Occurrences(s, c) > 0
    ensures c in s
    decreases |s|
  {
    if s[0] != c {
      OccurrencesNoneAbsent(s[1..], c);
    }
  }

  /**
   * A list whose first element is the number `n` and whose second element
   * does not parse: a hit on `n`, an error for every other value.
   */
  lemma ListWithUnparsableElement(n: nat, bad: string, v: int)
    requires n <= Int32Max
    requires ParseInt32(bad).None? && ',' !in bad
    ensures CanRun(ShowNat(n) + "," + bad, v) == (if v == n then Success(true) else Failure(NotAnInt(bad)))
  {
    var a := ShowNat(n);
    var field := a + "," + bad;
    ShowNatIsNumber(n);
    ParseShowInt(n);
    assert field == a + [','] + bad;
    SplitHead(a, ',', bad);
    SplitNoSeparator(bad, ',');
    assert field[|a|] == ',';
    assert Classify(field) == List;
    assert Split(field, ',') == [a, bad];
    assert [a, bad][1..] == [bad];
    assert ScanList([bad], v) == Failure(NotAnInt(bad));
  }

  /** Digits followed by a dash never parse as a number. */
  lemma DigitsThenDashRejected(a: string, b: string)
    requires |a| >= 1 && AllDigits(a)
    ensures ParseInt32(a + "-" + b) == None
  {
    var s := a + "-" + b;
    var body := TrimBy(s, NumberWhiteSpace);
    assert s[0] == a[0];
    assert LeadingBlanks(s, NumberWhiteSpace) == 0;
    assert s[|a|] == '-';
    if |body| > |a| {
      assert body[0] == a[0];
      assert body[|a|] == '-';
    }
  }

  /**
   * List elements are compared as numbers only: in `"n,lo-hi"` (such as
   * `"1,3-5"`) the element `lo-hi` is no range but a parse error, reached
   * for every value other than `n`, values between `lo` and `hi` included.
   */
  lemma ListWithRangeElement(n: nat, lo: nat, hi: nat, v: int)
    requires n <= Int32Max
    ensures CanRun(ShowNat(n) + "," + (ShowNat(lo) + "-" + ShowNat(hi)), v)
            == (if v == n then Success(true) else Failure(NotAnInt(ShowNat(lo) + "-" + ShowNat(hi))))
  {
    RenderedRangeIsNoNumber(lo, hi);
    ListWithUnparsableElement(n, ShowNat(lo) + "-" + ShowNat(hi), v);
  }

  /** The text `lo-hi` holds no comma and does not parse as a number. */
  lemma RenderedRangeIsNoNumber(lo: nat, hi: nat)
    ensures ',' !in ShowNat(lo) + "-" + ShowNat(hi)
    ensures ParseInt32(ShowNat(lo) + "-" + ShowNat(hi)).None?
  {
    var a, b := ShowNat(lo), ShowNat(hi);
    DigitsThenDashRejected(a, b);
    assert forall c :: c in a ==> IsDigit(c);
    assert forall c :: c in b ==> IsDigit(c);
  }
}
