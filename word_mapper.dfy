/**
 * `wordMapper`: the persisted shape of a word entry, annotated with the date it was
 * added, either as a line appended to the description ("comment" mode, also used when
 * there are no options) or as a source object on the example ("src-lit" mode). The
 * clock reading is an input.
 */
module WordMapper {
  import opened Wrappers
  import opened Reconcile
  import opened Strings

  /** The fields of `new Date()` that are read: calendar date, weekday and time. */
  datatype Clock = Clock(year: nat, month: nat, date: nat, day: nat, hours: nat, minutes: nat) {
    /** The ranges a JavaScript Date reports: month 0-11, weekday 0-6 (Sunday first). */
    predicate Valid() {
      month < 12 && 1 <= date <= 31 && day < 7 && hours < 24 && minutes < 60
    }
  }

  /** The instance options; only `annotMode` is read. */
  datatype Options = Options(annotMode: Option<string>)

  /** The citation attached to the example in "src-lit" mode. */
  datatype Source = Source(id: string, href: Option<string>, date: string, name: string)

  /** The example sentence of a persisted word. */
  datatype Example = Example(text: string, source: Option<Source>)

  /** The word as the list endpoint stores it. */
  datatype PersistedWord = PersistedWord(
    word: string,
    lang: string,
    description: Option<string>,
    example: Option<Example>,
    synsetid: Option<string>)

  const Days: seq<string> := ["Sunday", "Monday", "Tuesday", "Wednesday", "Thursday", "Friday", "Saturday"]
  const Months: seq<string> := ["January", "February", "March", "April", "May", "June", "July",
                                "August", "September", "October", "November", "December"]

  /** The citation id that makes the list page show the source. */
  const LitId: string := "LIT"
  const UntitledSource: string := "Untitled source"

  /** The decimal digit for d. */
  function DigitChar(d: nat): (c: char)
    requires d < 10
    ensures '0' <= c <= '9' && (c as int) - ('0' as int) == d
  {
    "0123456789"[d]
  }

  /** A number rendered in decimal, as a template literal renders it. */
  function NatToString(n: nat): (s: string)
    ensures |s| >= 1
    ensures |s| == 1 <==> n < 10
    ensures forall k :: 0 <= k < |s| ==> '0' <= s[k] <= '9'
  {
    if n < 10 then [DigitChar(n)] else NatToString(n / 10) + [DigitChar(n % 10)]
  }

  /** The value of a string of decimal digits. */
  function DecimalValue(s: string): nat
    requires forall k :: 0 <= k < |s| ==> '0' <= s[k] <= '9'
  {
    if s == [] then 0
    else DecimalValue(s[..|s| - 1]) * 10 + ((s[|s| - 1] as int) - ('0' as int))
  }

  /** Rendering a number in decimal loses nothing: reading the digits back gives it. */
  lemma {:induction false} NatToStringRoundTrip(n: nat)
    ensures DecimalValue(NatToString(n)) == n
  {
    if n >= 10 {
      NatToStringRoundTrip(n / 10);
      var s := NatToString(n);
      assert s[..|s| - 1] == NatToString(n / 10);
    }
  }

  /** The `pad` helper: a one-character rendering gets a leading '0'. */
  function Pad(c: nat): (s: string)
    ensures c < 100 ==> |s| == 2
    ensures forall k :: 0 <= k < |s| ==> '0' <= s[k] <= '9'
  {
    var s := NatToString(c);
    if |s| == 1 then "0" + s else s
  }

  /** A padded number still reads back as itself. */
  lemma PadRoundTrip(c: nat)
    ensures DecimalValue(Pad(c)) == c
  {
    NatToStringRoundTrip(c);
    var s := NatToString(c);
    if |s| == 1 {
      assert ("0" + s)[..1] == "0";
      assert DecimalValue("0") == 0;
    }
  }

  /** The value of the digits of a + b: those of a shifted left by |b| places. */
  lemma {:induction false} DecimalValueAppend(a: string, b: string)
    requires forall k :: 0 <= k < |a| ==> '0' <= a[k] <= '9'
    requires forall k :: 0 <= k < |b| ==> '0' <= b[k] <= '9'
    ensures DecimalValue(a + b) == DecimalValue(a) * Pow10(|b|) + DecimalValue(b)
    decreases |b|
  {
    if b != [] {
      var b' := b[..|b| - 1];
      var last := (b[|b| - 1] as int) - ('0' as int);
      assert (a + b)[..|a + b| - 1] == a + b';
      assert DecimalValue(a + b) == DecimalValue(a + b') * 10 + last;
      DecimalValueAppend(a, b');
      ShiftDigit(DecimalValue(a), Pow10(|b'|), DecimalValue(b'), last);
    } else {
      assert a + b == a;
    }
  }

  /**
   * An arithmetic hint for `DecimalValueAppend`: the non-linear step, stated over plain
   * integers so that the solver meets it without the surrounding sequence facts.
   */
  lemma ShiftDigit(va: int, p: int, vb: int, last: int)
    ensures (va * p + vb) * 10 + last == va * (p * 10) + (vb * 10 + last)
  {
  }

  function Pow10(n: nat): nat {
    if n == 0 then 1 else 10 * Pow10(n - 1)
  }

  /**
   * The human-readable stamp: "Wednesday 6 June 2018 at 14:08.", which opens with the
   * weekday's name and closes with the zero-padded hours and minutes and a full stop.
   */
  function DateString(now: Clock): (s: string)
    requires now.Valid()
    ensures |s| >= |Days[now.day]| + 6
    ensures s[..|Days[now.day]|] == Days[now.day]
    ensures s[|s| - 6..] == Pad(now.hours) + ":" + Pad(now.minutes) + "."
  {
    Days[now.day] + " " + NatToString(now.date) + " " + Months[now.month] + " " +
    NatToString(now.year) + " at " + Pad(now.hours) + ":" + Pad(now.minutes) + "."
  }

  /**
   * Cut at its spaces, the stamp reads: weekday, day of the month, month, year, "at" and
   * the time; the day and the year read back as the clock's numbers.
   */
  lemma DateStringFields(now: Clock)
    requires now.Valid()
    ensures var parts := Split(DateString(now), ' ');
            parts == [Days[now.day], NatToString(now.date), Months[now.month], NatToString(now.year),
                      "at", Pad(now.hours) + ":" + Pad(now.minutes) + "."] &&
            DecimalValue(parts[1]) == now.date && DecimalValue(parts[3]) == now.year
  {
    var time := Pad(now.hours) + ":" + Pad(now.minutes) + ".";
    var parts := [Days[now.day], NatToString(now.date), Months[now.month], NatToString(now.year), "at", time];
    DateStringIsJoin(now);
    StampFieldsSpaceFree(now);
    forall i | 0 <= i < |parts|
      ensures ' ' !in parts[i]
    {
    }
    SplitJoin(parts, ' ');
    NatToStringRoundTrip(now.date);
    NatToStringRoundTrip(now.year);
  }

  /** None of the stamp's fields holds a space. */
  lemma StampFieldsSpaceFree(now: Clock)
    requires now.Valid()
    ensures ' ' !in Days[now.day] && ' ' !in Months[now.month]
    ensures ' ' !in NatToString(now.date) && ' ' !in NatToString(now.year)
    ensures ' ' !in Pad(now.hours) + ":" + Pad(now.minutes) + "."
  {
  }

  /** The stamp is its six fields with one space between neighbours. */
  lemma DateStringIsJoin(now: Clock)
    requires now.Valid()
    ensures DateString(now) == Join([Days[now.day], NatToString(now.date), Months[now.month], NatToString(now.year),
                                     "at", Pad(now.hours) + ":" + Pad(now.minutes) + "."], ' ')
  {
    SpacedFields(Days[now.day], NatToString(now.date), Months[now.month], NatToString(now.year),
                 Pad(now.hours), Pad(now.minutes));
  }

  /** The shape of the stamp's template, read as six fields joined by spaces. */
  lemma SpacedFields(day: string, date: string, month: string, year: string, hh: string, mm: string)
    ensures day + " " + date + " " + month + " " + year + " at " + hh + ":" + mm + "." ==
            Join([day, date, month, year, "at", hh + ":" + mm + "."], ' ')
  {
    var time := hh + ":" + mm + ".";
    var parts := [day, date, month, year, "at", time];
    assert Join(parts[4..], ' ') == "at" + [' '] + time by { assert parts[4..][1..] == parts[5..]; }
    assert Join(parts[3..], ' ') == year + [' '] + Join(parts[4..], ' ') by { assert parts[3..][1..] == parts[4..]; }
    assert Join(parts[2..], ' ') == month + [' '] + Join(parts[3..], ' ') by { assert parts[2..][1..] == parts[3..]; }
    assert Join(parts[1..], ' ') == date + [' '] + Join(parts[2..], ' ') by { assert parts[1..][1..] == parts[2..]; }
    var x4 := day + " " + date + " " + month + " " + year;
    var x3 := day + " " + date + " " + month;
    var x2 := day + " " + date;
    assert x4 + " at " + hh + ":" + mm + "." == x4 + [' '] + Join(parts[4..], ' ');
    assert x4 + [' '] + Join(parts[4..], ' ') == x3 + [' '] + Join(parts[3..], ' ');
    assert x3 + [' '] + Join(parts[3..], ' ') == x2 + [' '] + Join(parts[2..], ' ');
  }


  /**
   * The compact date of the "src-lit" source: year, month (1-12) and day of the month,
   * the latter two padded to two digits, as in 20180606.
   */
  function CompactDate(now: Clock): (s: string)
    requires now.Valid()
    ensures forall k :: 0 <= k < |s| ==> '0' <= s[k] <= '9'
  {
    NatToString(now.year) + Pad(now.month + 1) + Pad(now.date)
  }

  /** The compact date reads back as the number YYYYMMDD. */
  lemma CompactDateValue(now: Clock)
    requires now.Valid()
    ensures DecimalValue(CompactDate(now)) == now.year * 10000 + (now.month + 1) * 100 + now.date
  {
    var y, m, d := NatToString(now.year), Pad(now.month + 1), Pad(now.date);
    assert Pow10(2) == 100;
    DecimalValueAppend(y, m);
    NatToStringRoundTrip(now.year);
    PadRoundTrip(now.month + 1);
    DecimalValueAppend(y + m, d);
    PadRoundTrip(now.date);
    assert (now.year * 100 + (now.month + 1)) * 100 + now.date ==
           now.year * 10000 + (now.month + 1) * 100 + now.date;
  }

  /** For a four-digit year the compact date is exactly eight digits long. */
  lemma CompactDateLength(now: Clock)
    requires now.Valid() && 1000 <= now.year <= 9999
    ensures |CompactDate(now)| == 8
  {
    var n := now.year;
    assert |NatToString(n / 1000)| == 1;
    assert n / 100 / 10 == n / 1000 && n / 10 / 10 == n / 100;
    assert |NatToString(n / 100)| == 2;
    assert |NatToString(n / 10)| == 3;
  }

  /** "src-lit" mode applies when there are options and their annotMode is "src-lit". */
  predicate SrcLitMode(options: Option<Options>)
    ensures options.None? ==> !SrcLitMode(options)
  {
    options.Some? && options.value.annotMode == Some("src-lit")
  }

  /**
   * "comment" mode applies when there are no options or annotMode is "comment". Options
   * without an annotMode select no mode, and the two modes never apply together.
   */
  predicate CommentMode(options: Option<Options>)
    ensures options.Some? && options.value.annotMode.None? ==> !CommentMode(options) && !SrcLitMode(options)
    ensures !(CommentMode(options) && SrcLitMode(options))
  {
    options.None? || options.value.annotMode == Some("comment")
  }

  /**
   * The line "comment" mode adds: with the entry's URL when it has one, else the date alone;
   * either way it ends with the date stamp.
   */
  function Annotation(w: WordEntry, now: Clock): (a: string)
    requires now.Valid()
    ensures |a| >= |DateString(now)| && a[|a| - |DateString(now)|..] == DateString(now)
    ensures Truthy(w.location) ==> a[..16] == "Added from URL: "
    ensures Truthy(w.location) ==>
              |a| >= 16 + |w.location.value| + 4 + |DateString(now)| &&
              a[16..16 + |w.location.value|] == w.location.value &&
              a[16 + |w.location.value|..|a| - |DateString(now)|] == " on "
    ensures !Truthy(w.location) ==> a[..9] == "Added on " && |a| == 9 + |DateString(now)|
  {
    if Truthy(w.location) then "Added from URL: " + w.location.value + " on " + DateString(now)
    else "Added on " + DateString(now)
  }

  /**
   * `wordMapper(w)` with the options and the clock reading as inputs: the word and
   * `lang: "en"`, then the description, the example, the annotation of the chosen mode
   * and the synset id, field by field.
   */
  method MapWord(w: WordEntry, options: Option<Options>, now: Clock) returns (nw: PersistedWord)
    requires now.Valid()
    ensures nw.word == w.word && nw.lang == "en"
    ensures CommentMode(options) ==>
              nw.description == Some(if Truthy(w.description)
                                     then w.description.value + "\n" + Annotation(w, now)
                                     else Annotation(w, now))
    ensures !CommentMode(options) ==>
              nw.description == (if Truthy(w.description) then w.description else None)
    ensures nw.example.Some? <==> Truthy(w.example) || Truthy(w.sentence)
    ensures nw.example.Some? ==>
              nw.example.value.text == (if Truthy(w.example) then w.example.value else w.sentence.value)
    ensures nw.example.Some? ==> (nw.example.value.source.Some? <==> SrcLitMode(options))
    ensures nw.example.Some? && SrcLitMode(options) ==>
              nw.example.value.source == Some(Source(
                LitId,
                if Truthy(w.locationString) then w.locationString else None,
                CompactDate(now),
                if Truthy(w.title) then w.title.value else UntitledSource))
    ensures nw.synsetid == (if Truthy(w.synsetid) then w.synsetid else None)
  {
    nw := PersistedWord(w.word, "en", None, None, None);
    if Truthy(w.description) {
      nw := nw.(description := w.description);
    }
    if Truthy(w.example) {
      nw := nw.(example := Some(Example(w.example.value, None)));
    } else if Truthy(w.sentence) {
      nw := nw.(example := Some(Example(w.sentence.value, None)));
    }
    if CommentMode(options) {
      var dateString := DateString(now);
      var locationString: Option<string> :=
        if Truthy(w.location) then Some("Added from URL: " + w.location.value + " on " + dateString) else None;
      var isolatedDateString := "Added on " + dateString;
      if Truthy(w.description) {
        var description := w.description.value;
        if locationString.Some? {
          description := description + "\n" + locationString.value;
        } else {
          description := description + "\n" + isolatedDateString;
        }
        nw := nw.(description := Some(description));
      } else {
        if locationString.Some? {
          nw := nw.(description := locationString);
        } else {
          nw := nw.(description := Some(isolatedDateString));
        }
      }
    } else if SrcLitMode(options) {
      var date := CompactDate(now);
      if Truthy(w.description) {
        nw := nw.(description := w.description);
      }
      if Truthy(w.example) || Truthy(w.sentence) {
        var source := Source(
          LitId,
          if Truthy(w.locationString) then w.locationString else None,
          date,
          if Truthy(w.title) then w.title.value else UntitledSource);
        nw := nw.(example := Some(nw.example.value.(source := Some(source))));
      }
    }
    if Truthy(w.synsetid) {
      nw := nw.(synsetid := w.synsetid);
    }
  }

  /**
   * In "comment" mode the original description survives as the head of the new one, and
   * the new one ends with the date stamp.
   */
  lemma CommentKeepsDescription(w: WordEntry, now: Clock)
    requires now.Valid() && Truthy(w.description)
    ensures var d := w.description.value + "\n" + Annotation(w, now);
            d[..|w.description.value|] == w.description.value &&
            d[|d| - |DateString(now)|..] == DateString(now)
  {
  }
}
