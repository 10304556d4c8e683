/** `TimerInputElement` (index.js:3-47): six number inputs holding the
    target's year, month, day of the month, hours, minutes and seconds.
    `setDate` writes a date's fields into them as text; `getDate` reads them
    back into a date. A `Date` is taken as the record of the fields its
    getters return, without calendar arithmetic. */
module DateInput {
  import opened Wrappers
  import opened Decimal

  /** A `Date` seen through its local-time getters; `month` is 0-based, as
      `getMonth` returns it. */
  datatype DateFields = DateFields(
    fullYear: int, month: int, date: int,
    hours: int, minutes: int, seconds: int, milliseconds: int)

  /** The keys of `this.inputs`: each names a getter `get<Key>` and a
      setter `set<Key>` of `Date`. */
  datatype Field = FullYear | Month | Date | Hours | Minutes | Seconds

  /** The keys in the order `Object.entries` visits them, which is also the
      order of the inputs on the page. */
  const Fields: seq<Field> := [FullYear, Month, Date, Hours, Minutes, Seconds]

  /** `date[`get${key}`]()`. */
  function Get(d: DateFields, f: Field): int {
    match f
    case FullYear => d.fullYear
    case Month => d.month
    case Date => d.date
    case Hours => d.hours
    case Minutes => d.minutes
    case Seconds => d.seconds
  }

  /** `date[`set${key}`](v)`, with no carry into other fields. */
  function Set(d: DateFields, f: Field, v: int): (r: DateFields)
    ensures Get(r, f) == v
    ensures forall g :: g != f ==> Get(r, g) == Get(d, g)
    ensures r.milliseconds == d.milliseconds
  {
    match f
    case FullYear => d.(fullYear := v)
    case Month => d.(month := v)
    case Date => d.(date := v)
    case Hours => d.(hours := v)
    case Minutes => d.(minutes := v)
    case Seconds => d.(seconds := v)
  }

  /** The text `setDate` writes into the input of field `f` holding `v`:
      the month one-based, every field but the year zero-padded to two. */
  function InputText(f: Field, v: int): string {
    var n := if f == Month then v + 1 else v;
    var s := IntToString(n);
    if f != FullYear then PadStart(s, 2, '0') else s
  }

  /** The value `getDate` hands to the setter of `f` for text `s`, or None
      when `Number(s)` is NaN; the month is shifted back to 0-based. */
  function InputValue(f: Field, s: string): Option<int> {
    match ParseInt(s)
    case Some(n) => Some(if f == Month then n - 1 else n)
    case None => None
  }

  /** What `setDate(d)` leaves in the six inputs. */
  function InputTexts(d: DateFields): (texts: seq<string>)
    ensures |texts| == 6
  {
    seq(6, i requires 0 <= i < 6 => InputText(Fields[i], Get(d, Fields[i])))
  }

  /** The values `getDate` computes from the six texts, in the order of `Fields`. */
  function InputValues(texts: seq<string>): (values: seq<Option<int>>)
    requires |texts| == 6
    ensures |values| == 6
  {
    seq(6, i requires 0 <= i < 6 => InputValue(Fields[i], texts[i]))
  }

  /** One turn of `getDate`'s loop: a setter call on an Invalid Date leaves
      it invalid, and so does a NaN value. (`setFullYear` would revive an
      Invalid Date, but it is called first, on a valid one.) */
  function SetValue(d: Option<DateFields>, f: Field, value: Option<int>): Option<DateFields> {
    match (d, value)
    case (Some(date), Some(v)) => Some(Set(date, f, v))
    case _ => None
  }

  /** The date after the first `n` turns of `getDate`'s loop. */
  function SetFields(d: Option<DateFields>, values: seq<Option<int>>, n: nat): Option<DateFields>
    requires n <= |values| && n <= |Fields|
  {
    if n == 0 then d else SetValue(SetFields(d, values, n - 1), Fields[n - 1], values[n - 1])
  }

  /** What `getDate` returns for the six texts when the clock reads `now`. */
  function DateFromTexts(now: DateFields, texts: seq<string>): Option<DateFields>
    requires |texts| == 6
  {
    SetFields(Some(now.(milliseconds := 0)), InputValues(texts), 6)
  }

  /** A field's text reads back as the value it was written from: the month
      is written plus one and read minus one. */
  lemma InputRoundTrip(f: Field, v: int)
    ensures InputValue(f, InputText(f, v)) == Some(v)
  {
    var n := if f == Month then v + 1 else v;
    if f == FullYear {
      ParseIntToString(n);
    } else {
      ParseIntPadded(n);
    }
  }

  /** The month input shows the one-based month. */
  lemma MonthOneBased(v: int)
    ensures ParseInt(InputText(Month, v)) == Some(v + 1)
  {
    ParseIntPadded(v + 1);
  }

  /** Every field but the year is at least two characters, and a single
      digit gets exactly one leading '0'; the year is never padded, so a
      year below 1000 has no leading zero. */
  lemma InputTextPadding(f: Field, v: int)
    ensures f != FullYear ==> |InputText(f, v)| >= 2
    ensures var n := if f == Month then v + 1 else v;
      f != FullYear && 0 <= n < 10 ==> InputText(f, v) == ['0', DigitChar(n)]
    ensures 0 < v ==> InputText(FullYear, v)[0] != '0'
    ensures 0 <= v < 10 ==> |InputText(FullYear, v)| == 1
  {
    var n := if f == Month then v + 1 else v;
    IntToStringSign(n);
    if f != FullYear && 0 <= n < 10 {
      assert InputText(f, v) == "0" + NatToString(n);
    }
    if 0 < v {
      NatToStringShape(v);
    }
  }

  /** With carry-free setters, `getDate` succeeds exactly when every text is
      a number, sets each field from its own input, and zeroes the
      milliseconds. */
  lemma DateFromTextsFields(now: DateFields, texts: seq<string>)
    requires |texts| == 6
    ensures DateFromTexts(now, texts).Some?
        <==> forall i :: 0 <= i < 6 ==> InputValue(Fields[i], texts[i]).Some?
    ensures DateFromTexts(now, texts).Some? ==>
      var d := DateFromTexts(now, texts).value;
      d.milliseconds == 0
      && forall i :: 0 <= i < 6 ==> Some(Get(d, Fields[i])) == InputValue(Fields[i], texts[i])
  {
    var start := Some(now.(milliseconds := 0));
    var values := InputValues(texts);
    assert SetFields(start, values, 1) == SetValue(start, Fields[0], values[0]);
    assert SetFields(start, values, 2) == SetValue(SetFields(start, values, 1), Fields[1], values[1]);
    assert SetFields(start, values, 3) == SetValue(SetFields(start, values, 2), Fields[2], values[2]);
    assert SetFields(start, values, 4) == SetValue(SetFields(start, values, 3), Fields[3], values[3]);
    assert SetFields(start, values, 5) == SetValue(SetFields(start, values, 4), Fields[4], values[4]);
  }

  /** Reading back what `setDate(d)` wrote gives each of `d`'s fields. */
  lemma InputValuesOfTexts(d: DateFields)
    ensures InputValues(InputTexts(d)) == seq(6, i requires 0 <= i < 6 => Some(Get(d, Fields[i])))
  {
    var texts := InputTexts(d);
    forall i | 0 <= i < 6
      ensures InputValues(texts)[i] == Some(Get(d, Fields[i]))
    {
      InputRoundTrip(Fields[i], Get(d, Fields[i]));
    }
  }

  /** Six successful turns of `getDate`'s loop overwrite all six fields. */
  lemma SetAllFields(d0: DateFields, d: DateFields, values: seq<Option<int>>)
    requires values == seq(6, i requires 0 <= i < 6 => Some(Get(d, Fields[i])))
    ensures SetFields(Some(d0), values, 6) == Some(d.(milliseconds := d0.milliseconds))
  {
    assert SetFields(Some(d0), values, 1) == Some(d0.(fullYear := d.fullYear));
    assert SetFields(Some(d0), values, 2) == Some(d0.(fullYear := d.fullYear, month := d.month));
    assert SetFields(Some(d0), values, 3) == Some(d0.(fullYear := d.fullYear, month := d.month, date := d.date));
    assert SetFields(Some(d0), values, 4)
        == Some(d0.(fullYear := d.fullYear, month := d.month, date := d.date, hours := d.hours));
    assert SetFields(Some(d0), values, 5)
        == Some(d.(milliseconds := d0.milliseconds, seconds := d0.seconds));
  }

  /** With carry-free setters, `setDate(d)` then `getDate()` gives `d` back
      with its milliseconds zeroed, whatever the clock reads. */
  lemma SetThenGet(now: DateFields, d: DateFields)
    ensures DateFromTexts(now, InputTexts(d)) == Some(d.(milliseconds := 0))
  {
    InputValuesOfTexts(d);
    SetAllFields(now.(milliseconds := 0), d, InputValues(InputTexts(d)));
  }

  /** The target the widget starts with: three hours after `now`, on the
      hour. */
  function DefaultTarget(now: DateFields): DateFields {
    now.(hours := now.hours + 3, minutes := 0, seconds := 0, milliseconds := 0)
  }

  class TimerInput {
    /** The `value` of each of the six inputs, in the order of `Fields`. */
    var inputs: array<string>

    predicate Valid()
      reads this
    {
      inputs.Length == 6
    }

    constructor (now: DateFields)
      ensures Valid() && fresh(inputs)
      ensures inputs[..] == InputTexts(DefaultTarget(now))
    {
      inputs := new string[6];
      new;
      SetDate(DefaultTarget(now));
    }

    method SetDate(date: DateFields)
      requires Valid()
      modifies inputs
      ensures inputs[..] == InputTexts(date)
    {
      var i := 0;
      while i < 6
        invariant 0 <= i <= 6
        invariant forall j :: 0 <= j < i ==> inputs[j] == InputText(Fields[j], Get(date, Fields[j]))
      {
        var key := Fields[i];
        var valueNumber := Get(date, key);
        if key == Month {
          valueNumber := valueNumber + 1;
        }
        var valueString := IntToString(valueNumber);
        if key != FullYear {
          valueString := PadStart(valueString, 2, '0');
        }
        assert valueString == InputText(key, Get(date, key));
        inputs[i] := valueString;
        i := i + 1;
      }
      assert forall j :: 0 <= j < 6 ==> inputs[..][j] == InputTexts(date)[j];
    }

    /** `now` is the clock's reading, `new Date()`. */
    method GetDate(now: DateFields) returns (r: Option<DateFields>)
      requires Valid()
      ensures r == DateFromTexts(now, inputs[..])
    {
      var date := Some(now.(milliseconds := 0));
      var i := 0;
      while i < 6
        invariant 0 <= i <= 6
        invariant date == SetFields(Some(now.(milliseconds := 0)), InputValues(inputs[..]), i)
      {
        var key := Fields[i];
        var value := ParseInt(inputs[i]);
        if key == Month && value.Some? {
          value := Some(value.value - 1);
        }
        date := if date.Some? && value.Some? then Some(Set(date.value, key, value.value)) else None;
        i := i + 1;
      }
      r := date;
    }
  }
}
