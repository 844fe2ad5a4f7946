/** The values of a cron timing and their textual form: the shorthand literals, the
    items of one field (`*`, an integer, a range `a-b`, steps `d/f`) and an explicit
    five-field timing, with the equality the original program defines on them. */
module Fields {
  import opened Results
  import opened Text

  /** One item of a field. `None` in the original program is `Wildcard`; the endpoints of
      a range and both sides of a step are items themselves, because the parser builds
      them by parsing each side as an item (so `*-5` has a wildcard start). */
  datatype Item =
    | Wildcard
    | Exact(n: nat)
    | Range(start: Item, end: Item)
    | Step(duration: Item, frequency: Item)

  // ---------------------------------------------------------------------------
  // Shorthand timings
  // ---------------------------------------------------------------------------

  /** The shorthand timings the program recognises; there is no monthly shorthand. */
  datatype Shorthand = Hourly | Daily | Weekly | Annually | Yearly | Reboot

  /** The enumeration value of a shorthand, as written in a crontab. */
  function Literal(k: Shorthand): string
  {
    match k
    case Hourly => "@hourly"
    case Daily => "@daily"
    case Weekly => "@weekly"
    case Annually => "@annually"
    case Yearly => "@yearly"
    case Reboot => "@reboot"
  }

  /** Looking a shorthand up by its value; `None` stands for the `ValueError` the
      enumeration raises for any other text. */
  function FromLiteral(s: string): (r: Option<Shorthand>)
    ensures r.Some? ==> Literal(r.value) == s
  {
    if s == "@hourly" then Some(Hourly)
    else if s == "@daily" then Some(Daily)
    else if s == "@weekly" then Some(Weekly)
    else if s == "@annually" then Some(Annually)
    else if s == "@yearly" then Some(Yearly)
    else if s == "@reboot" then Some(Reboot)
    else None
  }

  /** The lookup accepts exactly the six literals, each naming its own shorthand. */
  lemma FromLiteralExact(s: string, k: Shorthand)
    ensures FromLiteral(s) == Some(k) <==> s == Literal(k)
  {
  }

  /** `@monthly` is not a shorthand of this program. */
  lemma NoMonthly()
    ensures FromLiteral("@monthly") == None
  {
  }

  /** A literal starts with `@` and holds no whitespace. */
  lemma LiteralShape(k: Shorthand)
    ensures |Literal(k)| > 1 && Literal(k)[0] == '@'
    ensures NoSpace(Literal(k))
  {
  }

  /** Text that does not start with `@` is no shorthand. */
  lemma NotALiteral(s: string)
    requires s == [] || s[0] != '@'
    ensures FromLiteral(s) == None
  {
  }

  // ---------------------------------------------------------------------------
  // Rendering
  // ---------------------------------------------------------------------------

  /** `str(v)`: `None` prints as `None`; a range prints its endpoints with `str`, a step
      prints its duration with `CronStr` and its frequency with `str`. */
  function Str(v: Item): string
    decreases v, 0
  {
    match v
    case Wildcard => "None"
    case Exact(n) => NatToString(n)
    case Range(a, b) => Str(a) + "-" + Str(b)
    case Step(d, f) => CronStr(d) + "/" + Str(f)
  }

  /** The cron form of an item: `*` for the wildcard, `str` of anything else. */
  function CronStr(v: Item): string
    decreases v, 1
  {
    if v.Wildcard? then "*" else Str(v)
  }

  /** The cron forms of the items of a field, in order. */
  function CronStrs(items: seq<Item>): (r: seq<string>)
    ensures |r| == |items|
    ensures forall k :: 0 <= k < |items| ==> r[k] == CronStr(items[k])
  {
    if items == [] then [] else [CronStr(items[0])] + CronStrs(items[1..])
  }

  /** A field: its items' cron forms joined by `,` with no spaces. */
  function FieldText(items: seq<Item>): string
  {
    Join(CronStrs(items), ',')
  }

  /** A timing given field by field, in crontab order. */
  datatype ExplicitTiming = ExplicitTiming(
    minute: seq<Item>,
    hour: seq<Item>,
    dayOfMonth: seq<Item>,
    month: seq<Item>,
    dayOfWeek: seq<Item>)
  {
    /** The five fields in crontab order. */
    function Fields(): seq<seq<Item>>
    {
      [minute, hour, dayOfMonth, month, dayOfWeek]
    }
  }

  /** The texts of the five fields, in crontab order. */
  function FieldTexts(e: ExplicitTiming): seq<string>
  {
    [FieldText(e.minute), FieldText(e.hour), FieldText(e.dayOfMonth),
     FieldText(e.month), FieldText(e.dayOfWeek)]
  }

  /** `str(e)`: the five field texts separated by single spaces. */
  function ExplicitText(e: ExplicitTiming): string
  {
    Join(FieldTexts(e), ' ')
  }

  /** The characters rendering can produce inside one item. */
  predicate IsItemChar(c: char)
  {
    IsDigit(c) || c in "*-/None"
  }

  /** Text made only of item characters and commas. */
  predicate IsFieldChars(s: string)
  {
    forall i :: 0 <= i < |s| ==> IsItemChar(s[i]) || s[i] == ','
  }

  /** An item's text holds only item characters (in particular no comma, space, `@` or
      line break). */
  lemma {:induction false} ItemChars(v: Item)
    ensures forall i :: 0 <= i < |Str(v)| ==> IsItemChar(Str(v)[i])
    ensures forall i :: 0 <= i < |CronStr(v)| ==> IsItemChar(CronStr(v)[i])
  {
    match v
    case Wildcard =>
    case Exact(n) =>
    case Range(a, b) =>
      ItemChars(a);
      ItemChars(b);
    case Step(d, f) =>
      ItemChars(d);
      ItemChars(f);
  }

  /** Joining texts made of field characters gives such a text when the separator is one. */
  lemma {:induction false} JoinFieldChars(parts: seq<string>, sep: char)
    requires forall k :: 0 <= k < |parts| ==> IsFieldChars(parts[k])
    requires IsItemChar(sep) || sep == ','
    ensures IsFieldChars(Join(parts, sep))
  {
    if |parts| > 1 {
      JoinFieldChars(parts[1..], sep);
    }
  }

  /** A field's text holds only item characters and commas, so no whitespace and no `@`. */
  lemma FieldTextChars(items: seq<Item>)
    ensures IsFieldChars(FieldText(items))
    ensures NoSpace(FieldText(items)) && '@' !in FieldText(items)
  {
    var strs := CronStrs(items);
    forall k | 0 <= k < |strs| ensures IsFieldChars(strs[k]) {
      ItemChars(items[k]);
    }
    JoinFieldChars(strs, ',');
  }

  /** A non-empty field's text splits at commas back into its items' texts. */
  lemma FieldPieces(items: seq<Item>)
    requires items != []
    ensures Split(FieldText(items), ',') == CronStrs(items)
  {
    var strs := CronStrs(items);
    forall k | 0 <= k < |strs| ensures ',' !in strs[k] {
      ItemChars(items[k]);
      assert forall i :: 0 <= i < |strs[k]| ==> strs[k][i] != ',';
    }
    SplitOfJoin(strs, ',');
  }

  /** A field's text holds no space. */
  lemma FieldTextNoBlank(items: seq<Item>)
    ensures ' ' !in FieldText(items)
  {
    FieldTextChars(items);
    var text := FieldText(items);
    assert forall i :: 0 <= i < |text| ==> text[i] != ' ';
  }

  /** A field's text splits at commas back into its items' texts (for a non-empty field),
      and an explicit timing's text splits at spaces back into its five field texts. */
  lemma RenderedPieces(e: ExplicitTiming)
    ensures forall f :: f in e.Fields() && f != [] ==> Split(FieldText(f), ',') == CronStrs(f)
    ensures Split(ExplicitText(e), ' ') == FieldTexts(e)
  {
    forall f | f in e.Fields() && f != [] ensures Split(FieldText(f), ',') == CronStrs(f) {
      FieldPieces(f);
    }
    FieldTextNoBlank(e.minute);
    FieldTextNoBlank(e.hour);
    FieldTextNoBlank(e.dayOfMonth);
    FieldTextNoBlank(e.month);
    FieldTextNoBlank(e.dayOfWeek);
    SplitOfJoin(FieldTexts(e), ' ');
  }

  // ---------------------------------------------------------------------------
  // Equality
  // ---------------------------------------------------------------------------

  /** `a == b` on two items: `None` equals only `None`, an integer only the same integer,
      and a range or a step only the same kind with equal components (an item of another
      kind, such as the integer 42, compares unequal). */
  function ItemEq(a: Item, b: Item): bool
  {
    match a
    case Wildcard => b.Wildcard?
    case Exact(n) => b.Exact? && b.n == n
    case Range(s, e) => b.Range? && ItemEq(s, b.start) && ItemEq(e, b.end)
    case Step(d, f) => b.Step? && ItemEq(d, b.duration) && ItemEq(f, b.frequency)
  }

  /** The program's item equality is structural equality. */
  lemma {:induction false} ItemEqIsStructural(a: Item, b: Item)
    ensures ItemEq(a, b) <==> a == b
  {
    match a
    case Wildcard =>
    case Exact(n) =>
    case Range(s, e) =>
      if b.Range? {
        ItemEqIsStructural(s, b.start);
        ItemEqIsStructural(e, b.end);
      }
    case Step(d, f) =>
      if b.Step? {
        ItemEqIsStructural(d, b.duration);
        ItemEqIsStructural(f, b.frequency);
      }
  }

  /** List equality on two fields: the same length and equal items position by position. */
  predicate FieldEq(xs: seq<Item>, ys: seq<Item>)
  {
    |xs| == |ys| && forall k :: 0 <= k < |xs| ==> ItemEq(xs[k], ys[k])
  }

  /** Field equality is structural equality. */
  lemma FieldEqIsStructural(xs: seq<Item>, ys: seq<Item>)
    ensures FieldEq(xs, ys) <==> xs == ys
  {
    forall k | 0 <= k < |xs| && k < |ys| {
      ItemEqIsStructural(xs[k], ys[k]);
    }
    if FieldEq(xs, ys) {
      assert forall k :: 0 <= k < |xs| ==> xs[k] == ys[k];
    }
  }

  /** `ExplicitTiming.__eq__` as written: the last comparison takes the day of week of
      the left operand twice, so it never looks at the right operand's day of week. */
  predicate ExplicitEqAsWritten(a: ExplicitTiming, b: ExplicitTiming)
  {
    FieldEq(a.minute, b.minute) && FieldEq(a.hour, b.hour)
    && FieldEq(a.dayOfMonth, b.dayOfMonth) && FieldEq(a.month, b.month)
    && FieldEq(a.dayOfWeek, a.dayOfWeek)
  }

  /** The written equality holds exactly when the first four fields agree. */
  lemma ExplicitEqAsWrittenMeaning(a: ExplicitTiming, b: ExplicitTiming)
    ensures ExplicitEqAsWritten(a, b)
      <==> a.minute == b.minute && a.hour == b.hour && a.dayOfMonth == b.dayOfMonth && a.month == b.month
  {
    FieldEqIsStructural(a.minute, b.minute);
    FieldEqIsStructural(a.hour, b.hour);
    FieldEqIsStructural(a.dayOfMonth, b.dayOfMonth);
    FieldEqIsStructural(a.month, b.month);
    FieldEqIsStructural(a.dayOfWeek, a.dayOfWeek);
  }

  /** Two timings that differ only in the day of week compare equal as written. */
  lemma DayOfWeekIgnored()
    ensures var a := ExplicitTiming([Exact(0)], [Wildcard], [Wildcard], [Wildcard], [Exact(1)]);
            var b := ExplicitTiming([Exact(0)], [Wildcard], [Wildcard], [Wildcard], [Exact(2)]);
            ExplicitEqAsWritten(a, b) && a != b
  {
    var a := ExplicitTiming([Exact(0)], [Wildcard], [Wildcard], [Wildcard], [Exact(1)]);
    var b := ExplicitTiming([Exact(0)], [Wildcard], [Wildcard], [Wildcard], [Exact(2)]);
    ExplicitEqAsWrittenMeaning(a, b);
    assert a.dayOfWeek != b.dayOfWeek;
  }

  /** The evidently intended equality: all five fields compared with the other operand. */
  predicate ExplicitEq(a: ExplicitTiming, b: ExplicitTiming)
  {
    FieldEq(a.minute, b.minute) && FieldEq(a.hour, b.hour)
    && FieldEq(a.dayOfMonth, b.dayOfMonth) && FieldEq(a.month, b.month)
    && FieldEq(a.dayOfWeek, b.dayOfWeek)
  }

  /** The intended equality is structural equality of the five fields. */
  lemma ExplicitEqIsStructural(a: ExplicitTiming, b: ExplicitTiming)
    ensures ExplicitEq(a, b) <==> a == b
  {
    FieldEqIsStructural(a.minute, b.minute);
    FieldEqIsStructural(a.hour, b.hour);
    FieldEqIsStructural(a.dayOfMonth, b.dayOfMonth);
    FieldEqIsStructural(a.month, b.month);
    FieldEqIsStructural(a.dayOfWeek, b.dayOfWeek);
  }
}
