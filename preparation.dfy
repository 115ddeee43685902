/**
 * Data preparation (Code/app.py, lines 11-21): the `started_at` text of every
 * trip record loses each literal ".510", is parsed as a timestamp, records
 * whose timestamp does not parse are dropped, and a `year` column is derived
 * from the parsed timestamp.
 *
 * The timestamp parser itself (pandas' parser, told to coerce failures to NaT)
 * is a parameter: any total function from text to an optional timestamp.
 */
module Preparation {
  import opened Wrappers

  /** The spurious fractional-second text removed from `started_at`. */
  const MARKER: string := ".510"

  /** A parsed timestamp; only its calendar year is used downstream. */
  datatype Timestamp = Timestamp(year: int, month: int, day: int, hour: int, minute: int, second: int, nanosecond: int)

  /** What the coercing parser does with one text: a timestamp, or missing (NaT). */
  type Parser = string -> Option<Timestamp>

  /** A row of the loaded table, every cell still text. */
  datatype RawRecord = RawRecord(startedAt: string, rideableType: string, memberCasual: string)

  /** A row of the prepared table: a parsed timestamp and the derived year. */
  datatype TripRecord = TripRecord(startedAt: Timestamp, rideableType: string, memberCasual: string, year: int)

  predicate MarkerAt(s: string, i: int)
  {
    0 <= i && i + |MARKER| <= |s| && s[i..i + |MARKER|] == MARKER
  }

  predicate HasMarker(s: string)
  {
    exists i | 0 <= i <= |s| :: MarkerAt(s, i)
  }

  /**
   * Line 12's regular-expression replacement: one left-to-right scan that
   * deletes every non-overlapping occurrence of the marker.
   */
  function Strip(s: string): (r: string)
    ensures |r| <= |s|
    decreases |s|
  {
    if |s| < |MARKER| then s
    else if s[..|MARKER|] == MARKER then Strip(s[|MARKER|..])
    else [s[0]] + Strip(s[1..])
  }

  /** How many occurrences the scan of `Strip` deletes. */
  function Removals(s: string): nat
    decreases |s|
  {
    if |s| < |MARKER| then 0
    else if s[..|MARKER|] == MARKER then 1 + Removals(s[|MARKER|..])
    else Removals(s[1..])
  }

  /** Every removal shortens the text by exactly the marker's four characters. */
  lemma {:induction false} StripLength(s: string)
    ensures |Strip(s)| == |s| - |MARKER| * Removals(s)
    decreases |s|
  {
    if |s| < |MARKER| {
    } else if s[..|MARKER|] == MARKER {
      StripLength(s[|MARKER|..]);
    } else {
      StripLength(s[1..]);
    }
  }

  /** The scan deletes something exactly when the text contains the marker. */
  lemma {:induction false} RemovalsZeroIff(s: string)
    ensures Removals(s) == 0 <==> !HasMarker(s)
    decreases |s|
  {
    if |s| < |MARKER| {
      assert forall i :: !MarkerAt(s, i);
    } else if s[..|MARKER|] == MARKER {
      assert MarkerAt(s, 0);
    } else {
      RemovalsZeroIff(s[1..]);
      forall i | MarkerAt(s[1..], i)
        ensures MarkerAt(s, i + 1)
      {
        assert s[i + 1..i + 1 + |MARKER|] == s[1..][i..i + |MARKER|];
      }
      forall i | MarkerAt(s, i)
        ensures MarkerAt(s[1..], i - 1)
      {
        assert i != 0;
        assert s[1..][i - 1..i - 1 + |MARKER|] == s[i..i + |MARKER|];
      }
    }
  }

  /** Line 12 leaves `started_at` unchanged exactly when it holds no ".510". */
  lemma StripUnchangedIff(s: string)
    ensures Strip(s) == s <==> !HasMarker(s)
  {
    StripLength(s);
    RemovalsZeroIff(s);
    if !HasMarker(s) {
      NoMarkerUnchanged(s);
    }
  }

  lemma {:induction false} NoMarkerUnchanged(s: string)
    requires !HasMarker(s)
    ensures Strip(s) == s
    decreases |s|
  {
    if |s| >= |MARKER| {
      assert !MarkerAt(s, 0);
      forall i | MarkerAt(s[1..], i)
        ensures MarkerAt(s, i + 1)
      {
        assert s[i + 1..i + 1 + |MARKER|] == s[1..][i..i + |MARKER|];
      }
      NoMarkerUnchanged(s[1..]);
      assert s == [s[0]] + s[1..];
    }
  }

  /**
   * A trailing ".510" is always removed and never disturbs the rest: the
   * text with the suffix prepares exactly as the text without it.
   */
  lemma {:induction false} StripTrailingMarker(s: string)
    ensures Strip(s + MARKER) == Strip(s)
    decreases |s|
  {
    var t := s + MARKER;
    if s == [] {
      assert t[..|MARKER|] == MARKER && t[|MARKER|..] == [];
    } else if |s| >= |MARKER| && s[..|MARKER|] == MARKER {
      assert t[..|MARKER|] == MARKER;
      assert t[|MARKER|..] == s[|MARKER|..] + MARKER;
      StripTrailingMarker(s[|MARKER|..]);
    } else {
      assert t[..|MARKER|] != MARKER by {
        if |s| >= |MARKER| {
          assert t[..|MARKER|] == s[..|MARKER|];
        } else {
          assert t[|s|] == '.';
          assert MARKER[|s|] != '.';
        }
      }
      assert t[1..] == s[1..] + MARKER;
      StripTrailingMarker(s[1..]);
    }
  }

  /** The scan is a single pass: a deletion can join text into a new ".510" that stays. */
  lemma StripIsSinglePass()
    ensures Strip("..510510") == MARKER
    ensures HasMarker(Strip("..510510"))
  {
    var s := "..510510";
    assert s[..4][1] != MARKER[1];
    assert s[1..][..4] == MARKER;
    assert s[1..][4..] == "510";
    assert MarkerAt(MARKER, 0);
  }

  /**
   * The prepared table, record by record in input order (lines 12-21): a
   * record whose stripped text parses is kept with its timestamp and the
   * timestamp's year, any other record is dropped.
   */
  function Clean(raw: seq<RawRecord>, parse: Parser): (table: seq<TripRecord>)
    ensures |table| <= |raw|
    ensures forall i :: 0 <= i < |table| ==> table[i].year == table[i].startedAt.year
    decreases |raw|
  {
    if raw == [] then []
    else
      var rest := Clean(raw[..|raw| - 1], parse);
      var r := raw[|raw| - 1];
      match parse(Strip(r.startedAt))
      case None => rest
      case Some(t) => rest + [TripRecord(t, r.rideableType, r.memberCasual, t.year)]
  }

  /**
   * Lines 12-21 as the source runs them, one whole column at a time:
   * strip the text, parse it, drop the rows whose timestamp is missing,
   * then add the year column.
   */
  method PrepareTable(raw: seq<RawRecord>, parse: Parser) returns (table: seq<TripRecord>)
    ensures table == Clean(raw, parse)
  {
    // line 12: the cleaned `started_at` text
    var texts: seq<string> := [];
    var i := 0;
    while i < |raw|
      invariant 0 <= i <= |raw| && |texts| == i
      invariant forall k :: 0 <= k < i ==> texts[k] == Strip(raw[k].startedAt)
    {
      texts := texts + [Strip(raw[i].startedAt)];
      i := i + 1;
    }
    // line 15: the parsed `started_at`, missing where parsing fails
    var stamps: seq<Option<Timestamp>> := [];
    i := 0;
    while i < |raw|
      invariant 0 <= i <= |raw| && |stamps| == i
      invariant forall k :: 0 <= k < i ==> stamps[k] == parse(Strip(raw[k].startedAt))
    {
      stamps := stamps + [parse(texts[i])];
      i := i + 1;
    }
    // line 18: keep the rows whose timestamp is present
    var kept: seq<(Timestamp, string, string)> := [];
    i := 0;
    while i < |raw|
      invariant 0 <= i <= |raw|
      invariant |kept| == |Clean(raw[..i], parse)|
      invariant forall k :: 0 <= k < |kept| ==>
        var c := Clean(raw[..i], parse)[k]; kept[k] == (c.startedAt, c.rideableType, c.memberCasual)
    {
      assert raw[..i + 1][..i] == raw[..i];
      if stamps[i].Some? {
        kept := kept + [(stamps[i].value, raw[i].rideableType, raw[i].memberCasual)];
      }
      i := i + 1;
    }
    assert raw[..|raw|] == raw;
    // line 21: the derived `year` column
    table := [];
    var j := 0;
    while j < |kept|
      invariant 0 <= j <= |kept|
      invariant table == Clean(raw, parse)[..j]
    {
      var row := kept[j];
      table := table + [TripRecord(row.0, row.1, row.2, row.0.year)];
      j := j + 1;
    }
  }

  /** Cleaning is a per-record filter: it distributes over concatenation, so order is kept. */
  lemma {:induction false} CleanAppend(a: seq<RawRecord>, b: seq<RawRecord>, parse: Parser)
    ensures Clean(a + b, parse) == Clean(a, parse) + Clean(b, parse)
    decreases |b|
  {
    if b == [] {
      assert a + b == a;
    } else {
      var ab, init, last := a + b, b[..|b| - 1], b[|b| - 1];
      assert ab[..|ab| - 1] == a + init && ab[|ab| - 1] == last;
      CleanAppend(a, init, parse);
      match parse(Strip(last.startedAt))
      case None =>
        assert Clean(ab, parse) == Clean(a + init, parse);
      case Some(t) =>
        var c := TripRecord(t, last.rideableType, last.memberCasual, t.year);
        assert Clean(ab, parse) == Clean(a + init, parse) + [c];
        assert Clean(b, parse) == Clean(init, parse) + [c];
    }
  }

  /** A record whose text fails to parse leaves no trace in the prepared table. */
  lemma CleanDropsUnparsed(a: seq<RawRecord>, r: RawRecord, b: seq<RawRecord>, parse: Parser)
    requires parse(Strip(r.startedAt)) == None
    ensures Clean(a + [r] + b, parse) == Clean(a, parse) + Clean(b, parse)
  {
    CleanAppend(a + [r], b, parse);
    CleanAppend(a, [r], parse);
    assert [r][..0] == [];
  }

  /**
   * A record whose text parses is kept in place, its categorical fields
   * unchanged and its year taken from the parsed timestamp.
   */
  lemma CleanKeepsParsed(a: seq<RawRecord>, r: RawRecord, b: seq<RawRecord>, parse: Parser, t: Timestamp)
    requires parse(Strip(r.startedAt)) == Some(t)
    ensures Clean(a + [r] + b, parse)
         == Clean(a, parse) + [TripRecord(t, r.rideableType, r.memberCasual, t.year)] + Clean(b, parse)
  {
    CleanAppend(a + [r], b, parse);
    CleanAppend(a, [r], parse);
    assert [r][..0] == [];
  }

  /**
   * Every prepared record comes from an input record whose stripped text
   * parsed to its timestamp, with the same categorical fields.
   */
  lemma {:induction false} CleanSound(raw: seq<RawRecord>, parse: Parser)
    ensures forall c :: c in Clean(raw, parse) ==>
      exists r :: (r in raw && parse(Strip(r.startedAt)) == Some(c.startedAt) &&
        r.rideableType == c.rideableType && r.memberCasual == c.memberCasual)
    decreases |raw|
  {
    if raw != [] {
      var init := raw[..|raw| - 1];
      CleanSound(init, parse);
      forall c | c in Clean(raw, parse)
        ensures exists r :: (r in raw && parse(Strip(r.startedAt)) == Some(c.startedAt) &&
          r.rideableType == c.rideableType && r.memberCasual == c.memberCasual)
      {
        if c in Clean(init, parse) {
          var r :| r in init && parse(Strip(r.startedAt)) == Some(c.startedAt) &&
            r.rideableType == c.rideableType && r.memberCasual == c.memberCasual;
          assert r in raw;
        } else {
          assert raw[|raw| - 1] in raw;
        }
      }
    }
  }

  /** No record is dropped exactly when every record's stripped text parses. */
  lemma {:induction false} CleanKeepsAllIff(raw: seq<RawRecord>, parse: Parser)
    ensures |Clean(raw, parse)| == |raw| <==> forall r :: r in raw ==> parse(Strip(r.startedAt)).Some?
    decreases |raw|
  {
    if raw != [] {
      var init := raw[..|raw| - 1];
      CleanKeepsAllIff(init, parse);
      assert raw == init + [raw[|raw| - 1]];
      assert forall r :: r in raw ==> r in init || r == raw[|raw| - 1];
    }
  }

  /** A text with the ".510" suffix prepares exactly like the text without it. */
  lemma MarkerSuffixIgnored(s: string, rideableType: string, memberCasual: string, parse: Parser)
    ensures Clean([RawRecord(s + MARKER, rideableType, memberCasual)], parse)
         == Clean([RawRecord(s, rideableType, memberCasual)], parse)
  {
    StripTrailingMarker(s);
  }

  lemma NoDotNoMarker(s: string)
    requires '.' !in s
    ensures !HasMarker(s)
  {
    forall i | 0 <= i <= |s|
      ensures !MarkerAt(s, i)
    {
      assert i < |s| ==> s[i] in s;
    }
  }

  /** A timestamp text carrying the suffix is stripped to the plain timestamp. */
  lemma StripExample(s: string)
    requires s == "2021-05-01 10:00:00"
    ensures Strip(s + MARKER) == s
  {
    assert '.' !in s;
    NoDotNoMarker(s);
    NoMarkerUnchanged(s);
    StripTrailingMarker(s);
  }
}
