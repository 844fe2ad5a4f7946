/** One titled cron job: its timing and command, how a job line is parsed into them
    (`parse_cron_text`, `_parse_discrete_value`, `from_job`) and how it is written back
    (`to_job`), with the round trip between the two. */
module CronJob {
  import opened Results
  import opened Text
  import opened Fields

  /** Why a timing text is rejected; the original program raises `ValueError` for both. */
  datatype ParseError =
    | NotAnInteger(component: string)            // `int(...)` failed on this item
    | WrongPieceCount(component: string, sep: char)  // `a, b = item.split(sep)` did not get two pieces

  /** A timing is a shorthand literal or an explicit five-field timing. */
  datatype Timing = Short(kind: Shorthand) | Explicit(fields: ExplicitTiming)

  /** A job: its title, its timing and its command (kept as opaque text). */
  datatype Job = Job(title: string, timing: Timing, command: string)

  // ---------------------------------------------------------------------------
  // Parsing one field (`_parse_discrete_value`)
  // ---------------------------------------------------------------------------

  /** One comma-free item: a step if it holds `/`, else a range if it holds `-`, else the
      wildcard `*`, else an integer. */
  function ItemOf(s: string): Result<Item, ParseError>
    decreases |s|, 1
  {
    if '/' in s then PairOf(s, '/')
    else if '-' in s then PairOf(s, '-')
    else if s == "*" then Ok(Wildcard)
    else
      match ParseNat(s)
      case Some(n) => Ok(Exact(n))
      case None => Err(NotAnInteger(s))
  }

  /** The step (`/`) or range (`-`) an item holding `sep` stands for: the item must split
      into exactly two pieces, each parsed as an item itself, left piece first. */
  function PairOf(s: string, sep: char): (r: Result<Item, ParseError>)
    requires sep == '/' || sep == '-'
    ensures r.Ok? ==> (if sep == '/' then r.value.Step? else r.value.Range?)
    decreases |s|, 0
  {
    var pieces := Split(s, sep);
    if |pieces| != 2 then Err(WrongPieceCount(s, sep))
    else
      SplitPartShorter(s, sep, 0);
      SplitPartShorter(s, sep, 1);
      match ItemOf(pieces[0])
      case Err(e) => Err(e)
      case Ok(a) =>
        match ItemOf(pieces[1])
        case Err(e) => Err(e)
        case Ok(b) => Ok(if sep == '/' then Step(a, b) else Range(a, b))
  }

  /** The items of a list, parsed left to right; the first failure is the result. */
  function ItemsOf(items: seq<string>): (r: Result<seq<Item>, ParseError>)
    ensures r.Ok? ==> |r.value| == |items|
  {
    if items == [] then Ok([])
    else
      match ItemsOf(items[..|items| - 1])
      case Err(e) => Err(e)
      case Ok(vs) =>
        match ItemOf(items[|items| - 1])
        case Err(e) => Err(e)
        case Ok(v) => Ok(vs + [v])
  }

  /** A field: its comma-separated items, one value per item, in order. */
  function FieldOf(value: string): Result<seq<Item>, ParseError>
  {
    ItemsOf(Split(value, ','))
  }

  /** A failure while parsing a prefix of the items is the failure of the whole list. */
  lemma {:induction false} ItemsOfFailure(items: seq<string>, j: nat)
    requires j <= |items| && ItemsOf(items[..j]).Err?
    ensures ItemsOf(items) == ItemsOf(items[..j])
    decreases |items| - j
  {
    if j < |items| {
      assert items[..j + 1][..j] == items[..j];
      ItemsOfFailure(items, j + 1);
    } else {
      assert items[..j] == items;
    }
  }

  /** A field without commas is a single item. */
  lemma FieldOfOneItem(s: string)
    requires ',' !in s
    ensures FieldOf(s).Ok? <==> ItemOf(s).Ok?
    ensures FieldOf(s).Ok? ==> FieldOf(s).value == [ItemOf(s).value]
    ensures FieldOf(s).Err? ==> FieldOf(s).error == ItemOf(s).error
  {
    SplitWithoutSep(s, ',');
    assert [s][..0] == [];
    assert ItemsOf([s]) == match ItemOf(s) case Ok(v) => Ok([] + [v]) case Err(e) => Err(e);
  }

  /** `_parse_discrete_value`: the values of the comma-separated items of `value`, or
      the error raised by the first item that is none of step, range, `*` or integer. */
  method ParseDiscreteValue(value: string) returns (r: Result<seq<Item>, ParseError>)
    ensures r == FieldOf(value)
    decreases |value|, 1
  {
    var values: seq<Item> := [];
    var listValues := Split(value, ',');
    var i := 0;
    while i < |listValues|
      invariant 0 <= i <= |listValues|
      invariant ItemsOf(listValues[..i]) == Ok(values)
    {
      var listValue := listValues[i];
      assert listValues[..i + 1][..i] == listValues[..i];
      SplitPartShorter(value, ',', i);
      var item := ParseListValue(listValue);
      if item.Err? {
        ItemsOfFailure(listValues, i + 1);
        return Err(item.error);
      }
      values := values + [item.value];
      i := i + 1;
    }
    assert listValues[..i] == listValues;
    r := Ok(values);
  }

  /** The body of `_parse_discrete_value`'s loop for one comma-free item: both sides of a
      step or a range are parsed by `_parse_discrete_value` again, keeping its first value. */
  method ParseListValue(listValue: string) returns (r: Result<Item, ParseError>)
    requires ',' !in listValue
    ensures r == ItemOf(listValue)
    decreases |listValue|, 0
  {
    if '/' in listValue {
      var pieces := Split(listValue, '/');
      if |pieces| != 2 {
        return Err(WrongPieceCount(listValue, '/'));
      }
      SplitPartShorter(listValue, '/', 0);
      SplitPartShorter(listValue, '/', 1);
      SplitPartWithout(listValue, '/', 0, ',');
      SplitPartWithout(listValue, '/', 1, ',');
      FieldOfOneItem(pieces[0]);
      FieldOfOneItem(pieces[1]);
      var duration := ParseDiscreteValue(pieces[0]);
      if duration.Err? {
        return Err(duration.error);
      }
      var frequency := ParseDiscreteValue(pieces[1]);
      if frequency.Err? {
        return Err(frequency.error);
      }
      r := Ok(Step(duration.value[0], frequency.value[0]));
    } else if '-' in listValue {
      var pieces := Split(listValue, '-');
      if |pieces| != 2 {
        return Err(WrongPieceCount(listValue, '-'));
      }
      SplitPartShorter(listValue, '-', 0);
      SplitPartShorter(listValue, '-', 1);
      SplitPartWithout(listValue, '-', 0, ',');
      SplitPartWithout(listValue, '-', 1, ',');
      FieldOfOneItem(pieces[0]);
      FieldOfOneItem(pieces[1]);
      var start := ParseDiscreteValue(pieces[0]);
      if start.Err? {
        return Err(start.error);
      }
      var end := ParseDiscreteValue(pieces[1]);
      if end.Err? {
        return Err(end.error);
      }
      r := Ok(Range(start.value[0], end.value[0]));
    } else if listValue == "*" {
      r := Ok(Wildcard);
    } else {
      var n := ParseNat(listValue);
      if n.None? {
        return Err(NotAnInteger(listValue));
      }
      r := Ok(Exact(n.value));
    }
  }

  // ---------------------------------------------------------------------------
  // Parsing a job line (`parse_cron_text`, `from_job`)
  // ---------------------------------------------------------------------------

  /** The first `k` explicit fields: each time, the text up to the next single space is
      parsed as a field and the text after that space remains. */
  function FieldsOf(text: string, k: nat): (r: Result<(seq<seq<Item>>, string), ParseError>)
    ensures r.Ok? ==> |r.value.0| == k
  {
    if k == 0 then Ok(([], text))
    else
      match FieldsOf(text, k - 1)
      case Err(e) => Err(e)
      case Ok((fs, rem)) =>
        var (comp, rest) := Partition(rem, ' ');
        match FieldOf(comp)
        case Err(e) => Err(e)
        case Ok(f) => Ok((fs + [f], rest))
  }

  /** A failure among the first `j` fields is the failure of all five. */
  lemma {:induction false} FieldsOfFailure(text: string, j: nat, k: nat)
    requires j <= k && FieldsOf(text, j).Err?
    ensures FieldsOf(text, k) == FieldsOf(text, j)
    decreases k - j
  {
    if j < k {
      FieldsOfFailure(text, j, k - 1);
    }
  }

  /** A job line split into timing and command. When the text before the first space is
      a shorthand literal, the command is the remaining whitespace-separated words joined
      by single spaces; otherwise five space-delimited fields are parsed and the command
      is the rest of the text as it stands. */
  function TimingOf(cronText: string): Result<(Timing, string), ParseError>
  {
    match FromLiteral(Split(cronText, ' ')[0])
    case Some(k) =>
      var words := Words(cronText);
      Ok((Short(k), Join(if words == [] then [] else words[1..], ' ')))
    case None =>
      match FieldsOf(cronText, 5)
      case Err(e) => Err(e)
      case Ok((fs, rest)) =>
        Ok((Explicit(ExplicitTiming(fs[0], fs[1], fs[2], fs[3], fs[4])), rest))
  }

  /** `parse_cron_text`: the timing and the command of a job line, or the error of the
      first field that does not parse. */
  method ParseCronText(cronText: string) returns (r: Result<(Timing, string), ParseError>)
    ensures r == TimingOf(cronText)
  {
    var shorthand := Split(cronText, ' ')[0];
    var kind := FromLiteral(shorthand);
    if kind.Some? {
      var remainingCronTexts := Words(cronText);
      remainingCronTexts := if remainingCronTexts == [] then [] else remainingCronTexts[1..];
      return Ok((Short(kind.value), Join(remainingCronTexts, ' ')));
    }
    var timingList: seq<seq<Item>> := [];
    var remainingCronText := cronText;
    var i := 0;
    while i < 5
      invariant 0 <= i <= 5
      invariant FieldsOf(cronText, i) == Ok((timingList, remainingCronText))
    {
      var comp;
      comp, remainingCronText := Partition(remainingCronText, ' ').0, Partition(remainingCronText, ' ').1;
      var parsedComp := ParseDiscreteValue(comp);
      if parsedComp.Err? {
        FieldsOfFailure(cronText, i + 1, 5);
        return Err(parsedComp.error);
      }
      timingList := timingList + [parsedComp.value];
      i := i + 1;
    }
    var timing := ExplicitTiming(timingList[0], timingList[1], timingList[2], timingList[3], timingList[4]);
    r := Ok((Explicit(timing), remainingCronText));
  }

  /** The job that a titled job line describes. */
  function JobOf(jobText: string, title: string): Result<Job, ParseError>
  {
    match TimingOf(jobText)
    case Err(e) => Err(e)
    case Ok((timing, command)) => Ok(Job(title, timing, command))
  }

  /** `from_job`: a job with the given title, from the timing and command of its line. */
  method FromJob(jobText: string, title: string) returns (r: Result<Job, ParseError>)
    ensures r == JobOf(jobText, title)
    ensures r.Ok? ==> r.value.title == title
  {
    var parsed := ParseCronText(jobText);
    if parsed.Err? {
      return Err(parsed.error);
    }
    r := Ok(Job(title, parsed.value.0, parsed.value.1));
  }

  // ---------------------------------------------------------------------------
  // Writing a job back (`to_job`) and equality (`__eq__`)
  // ---------------------------------------------------------------------------

  /** The text of a timing: a shorthand's literal, or the explicit timing's five fields. */
  function TimingText(t: Timing): string
  {
    match t
    case Short(k) => Literal(k)
    case Explicit(e) => ExplicitText(e)
  }

  /** `to_job`: the timing text and the command of a job. */
  function ToJob(j: Job): (string, string)
  {
    (TimingText(j.timing), j.command)
  }

  /** The job line of a job: its timing text, a space and its command. */
  function JobLine(j: Job): string
  {
    ToJob(j).0 + " " + ToJob(j).1
  }

  /** A timing's text is a single line. */
  lemma TimingTextOneLine(t: Timing)
    ensures '\n' !in TimingText(t)
  {
    match t
    case Short(k) =>
      LiteralShape(k);
      NoSpaceWithout(Literal(k), '\n');
    case Explicit(e) =>
      var texts := FieldTexts(e);
      forall k | 0 <= k < |texts| ensures '\n' !in texts[k] {
        FieldTextChars(e.Fields()[k]);
        NoSpaceWithout(texts[k], '\n');
      }
      JoinWithout(texts, ' ', '\n');
  }

  /** The job line of a job whose command is a single line is a single line. */
  lemma JobLineOneLine(j: Job)
    requires '\n' !in j.command
    ensures '\n' !in JobLine(j)
  {
    TimingTextOneLine(j.timing);
  }

  /** `CronJob.__eq__` as written: titles, timings (with the explicit timing's own
      equality, which does not compare days of week) and commands agree. Shorthands are
      enumeration members, equal only to themselves. */
  predicate JobEq(a: Job, b: Job)
  {
    a.title == b.title && a.command == b.command
    && match a.timing
       case Short(k) => b.timing.Short? && b.timing.kind == k
       case Explicit(e) => b.timing.Explicit? && ExplicitEqAsWritten(e, b.timing.fields)
  }

  /** The minute, hour, day of month and month fields agree. */
  predicate SameFirstFour(x: ExplicitTiming, y: ExplicitTiming)
  {
    x.minute == y.minute && x.hour == y.hour && x.dayOfMonth == y.dayOfMonth && x.month == y.month
  }

  /** Job equality holds for equal jobs, and beyond that only for jobs whose explicit
      timings differ in the day of week alone. */
  lemma JobEqMeaning(a: Job, b: Job)
    ensures a == b ==> JobEq(a, b)
    ensures JobEq(a, b) <==>
      a.title == b.title && a.command == b.command
      && (a.timing.Short? ==> a.timing == b.timing)
      && (a.timing.Explicit? ==>
            b.timing.Explicit? && SameFirstFour(a.timing.fields, b.timing.fields))
  {
    if a.timing.Explicit? && b.timing.Explicit? {
      ExplicitEqAsWrittenMeaning(a.timing.fields, b.timing.fields);
    }
  }

  /** The evidently intended job equality: as `JobEq`, with all five fields of explicit
      timings compared. */
  predicate JobEqIntended(a: Job, b: Job)
  {
    a.title == b.title && a.command == b.command
    && match a.timing
       case Short(k) => b.timing.Short? && b.timing.kind == k
       case Explicit(e) => b.timing.Explicit? && ExplicitEq(e, b.timing.fields)
  }

  /** The intended job equality is structural equality of title, timing and command. */
  lemma JobEqIntendedIsStructural(a: Job, b: Job)
    ensures JobEqIntended(a, b) <==> a == b
  {
    if a.timing.Explicit? && b.timing.Explicit? {
      ExplicitEqIsStructural(a.timing.fields, b.timing.fields);
    }
  }

  // ---------------------------------------------------------------------------
  // Which items survive writing and re-reading
  // ---------------------------------------------------------------------------

  /** The wildcard or an integer: what an item without `/` and `-` parses to. */
  predicate Simple(v: Item)
  {
    v.Wildcard? || v.Exact?
  }

  /** What an item without `/` parses to: a simple item or a range of simple items. */
  predicate Unstepped(v: Item)
  {
    Simple(v) || (v.Range? && Simple(v.start) && Simple(v.end))
  }

  /** Every item the parser can produce: ranges of simple items and steps whose two
      sides hold no step. */
  predicate Parsed(v: Item)
  {
    match v
    case Wildcard => true
    case Exact(_) => true
    case Range(a, b) => Simple(a) && Simple(b)
    case Step(d, f) => Unstepped(d) && Unstepped(f)
  }

  /** A field the parser can produce: a non-empty list of parsed items. */
  predicate ParsedField(f: seq<Item>)
  {
    f != [] && forall k :: 0 <= k < |f| ==> Parsed(f[k])
  }

  /** An integer or a range of two integers. */
  predicate Bounded(v: Item)
  {
    v.Exact? || (v.Range? && v.start.Exact? && v.end.Exact?)
  }

  /** The items whose text parses back to themselves: no wildcard may sit where `str`
      (rather than the cron form) writes it, that is in a range endpoint or a step
      frequency. */
  predicate Canonical(v: Item)
  {
    match v
    case Wildcard => true
    case Exact(_) => true
    case Range(a, b) => a.Exact? && b.Exact?
    case Step(d, f) => (d.Wildcard? || Bounded(d)) && Bounded(f)
  }

  /** The texts of simple items: `*`, `None` or digits, with no `/` or `-`. */
  lemma SimpleText(v: Item)
    requires Simple(v)
    ensures '/' !in Str(v) && '-' !in Str(v) && '/' !in CronStr(v) && '-' !in CronStr(v)
    ensures ItemOf(CronStr(v)) == Ok(v)
    ensures ItemOf(Str(v)) == if v.Wildcard? then Err(NotAnInteger("None")) else Ok(v)
  {
    if v.Exact? {
      var s := NatToString(v.n);
      assert forall i :: 0 <= i < |s| ==> s[i] != '/' && s[i] != '-';
      assert s != "*" by { assert s[0] != '*'; }
      ParseNatOfString(v.n);
    } else {
      assert "None" != "*";
      assert ParseNat("None") == None by { assert !IsDigit("None"[0]); }
    }
  }

  /** The text of a range of simple items parses back exactly when both endpoints are
      integers; otherwise the endpoint written as `None` is rejected. */
  lemma RangeText(a: Item, b: Item)
    requires Simple(a) && Simple(b)
    ensures '/' !in Str(Range(a, b)) && '/' !in CronStr(Range(a, b))
    ensures ItemOf(Str(Range(a, b))) == if a.Exact? && b.Exact? then Ok(Range(a, b)) else Err(NotAnInteger("None"))
  {
    SimpleText(a);
    SimpleText(b);
    var s := Str(Range(a, b));
    assert s == Join([Str(a), Str(b)], '-');
    SplitOfJoin([Str(a), Str(b)], '-');
    assert s[|Str(a)|] == '-';
  }

  /** The text of an unstepped item, read back as an item. */
  lemma UnsteppedText(v: Item)
    requires Unstepped(v)
    ensures '/' !in Str(v) && '/' !in CronStr(v)
    ensures ItemOf(CronStr(v)) == (if Canonical(v) then Ok(v) else Err(NotAnInteger("None")))
    ensures ItemOf(Str(v)) == (if Bounded(v) then Ok(v) else Err(NotAnInteger("None")))
  {
    if Simple(v) {
      SimpleText(v);
    } else {
      RangeText(v.start, v.end);
    }
  }

  /** Writing then parsing an item the parser could have produced gives it back exactly
      when it is canonical; otherwise parsing the text fails. */
  lemma ParsedText(v: Item)
    requires Parsed(v)
    ensures ItemOf(CronStr(v)) == (if Canonical(v) then Ok(v) else Err(NotAnInteger("None")))
  {
    match v
    case Wildcard => SimpleText(v);
    case Exact(_) => SimpleText(v);
    case Range(a, b) => RangeText(a, b);
    case Step(d, f) =>
      UnsteppedText(d);
      UnsteppedText(f);
      var s := CronStr(v);
      assert s == Str(v);
      assert s == Join([CronStr(d), Str(f)], '/');
      SplitOfJoin([CronStr(d), Str(f)], '/');
      assert s[|CronStr(d)|] == '/';
  }

  /** Every item the parser returns is one it can produce: `Parsed`, unstepped when the
      text has no `/`, and simple when it has neither `/` nor `-`. */
  lemma {:induction false} ItemOfShape(s: string)
    requires ItemOf(s).Ok?
    ensures Parsed(ItemOf(s).value)
    ensures '/' !in s ==> Unstepped(ItemOf(s).value)
    ensures '/' !in s && '-' !in s ==> Simple(ItemOf(s).value)
    decreases |s|
  {
    if '/' in s {
      var pieces := Split(s, '/');
      SplitPartShorter(s, '/', 0);
      SplitPartShorter(s, '/', 1);
      ItemOfShape(pieces[0]);
      ItemOfShape(pieces[1]);
    } else if '-' in s {
      var pieces := Split(s, '-');
      SplitPartShorter(s, '-', 0);
      SplitPartShorter(s, '-', 1);
      SplitPartWithout(s, '-', 0, '/');
      SplitPartWithout(s, '-', 1, '/');
      ItemOfShape(pieces[0]);
      ItemOfShape(pieces[1]);
    }
  }

  /** An item's text parses back to the item exactly when the item is canonical. */
  lemma ItemRoundTrip(v: Item)
    ensures ItemOf(CronStr(v)) == Ok(v) <==> Canonical(v)
  {
    if Parsed(v) {
      ParsedText(v);
    } else if ItemOf(CronStr(v)).Ok? {
      ItemOfShape(CronStr(v));
    }
  }

  /** Every field the parser returns has at least one item, and all of them are items
      the parser can produce. */
  lemma FieldOfShape(value: string)
    requires FieldOf(value).Ok?
    ensures ParsedField(FieldOf(value).value)
  {
    ItemsOfShape(Split(value, ','));
  }

  lemma {:induction false} ItemsOfShape(items: seq<string>)
    requires ItemsOf(items).Ok?
    ensures forall k :: 0 <= k < |items| ==> ItemOf(items[k]).Ok? && ItemsOf(items).value[k] == ItemOf(items[k]).value
    ensures forall k :: 0 <= k < |items| ==> Parsed(ItemsOf(items).value[k])
  {
    if items != [] {
      var n := |items| - 1;
      var init := items[..n];
      ItemsOfShape(init);
      var vs := ItemsOf(init).value;
      var v := ItemOf(items[n]).value;
      assert ItemsOf(items).value == vs + [v];
      forall k | 0 <= k < |items|
        ensures ItemOf(items[k]).Ok? && ItemsOf(items).value[k] == ItemOf(items[k]).value
        ensures Parsed(ItemsOf(items).value[k])
      {
        if k < n {
          assert init[k] == items[k];
          assert (vs + [v])[k] == vs[k];
        }
        ItemOfShape(items[k]);
      }
    }
  }

  /** The items of a list of canonical items' texts parse back to those items. */
  lemma {:induction false} ItemsOfTexts(items: seq<Item>)
    requires forall k :: 0 <= k < |items| ==> Canonical(items[k])
    ensures ItemsOf(CronStrs(items)) == Ok(items)
  {
    if items != [] {
      var n := |items| - 1;
      var init := items[..n];
      ItemsOfTexts(init);
      var strs := CronStrs(items);
      assert strs[..n] == CronStrs(init);
      ItemRoundTrip(items[n]);
      FrontLast(items);
    }
  }

  /** A field is lossless when it has an item and every item is canonical. */
  predicate LosslessField(items: seq<Item>)
  {
    items != [] && forall k :: 0 <= k < |items| ==> Canonical(items[k])
  }

  /** A field's text parses back to the field when the field is lossless. */
  lemma FieldRoundTrip(items: seq<Item>)
    requires LosslessField(items)
    ensures FieldOf(FieldText(items)) == Ok(items)
  {
    FieldPieces(items);
    ItemsOfTexts(items);
  }

  /** The text of several fields followed by a command: each field then one space. */
  function FieldsThen(texts: seq<string>, command: string): string
  {
    if texts == [] then command else texts[0] + [' '] + FieldsThen(texts[1..], command)
  }

  lemma {:induction false} JoinThen(texts: seq<string>, command: string)
    requires texts != []
    ensures Join(texts, ' ') + " " + command == FieldsThen(texts, command)
  {
    if |texts| > 1 {
      JoinThen(texts[1..], command);
    }
  }

  /** One more field: the next piece up to a space parses as a field. */
  lemma FieldsOfNext(text: string, i: nat, fs: seq<seq<Item>>, rem: string, comp: string, rest: string, f: seq<Item>)
    requires FieldsOf(text, i) == Ok((fs, rem))
    requires Partition(rem, ' ') == (comp, rest) && FieldOf(comp) == Ok(f)
    ensures FieldsOf(text, i + 1) == Ok((fs + [f], rest))
  {
  }

  /** Parsing the first `i` fields of written lossless fields followed by a command. */
  lemma {:induction false} FieldsOfRendered(fields: seq<seq<Item>>, texts: seq<string>, command: string, i: nat)
    requires |texts| == |fields| && i <= |fields|
    requires forall k :: 0 <= k < |fields| ==> LosslessField(fields[k]) && texts[k] == FieldText(fields[k])
    ensures FieldsOf(FieldsThen(texts, command), i) == Ok((fields[..i], FieldsThen(texts[i..], command)))
  {
    if i > 0 {
      var j := i - 1;
      var text := FieldsThen(texts, command);
      FieldsOfRendered(fields, texts, command, j);
      var rem := FieldsThen(texts[j..], command);
      DropNext(texts, j);
      assert rem == texts[j] + [' '] + FieldsThen(texts[i..], command);
      FieldTextChars(fields[j]);
      NoSpaceWithout(texts[j], ' ');
      PartitionAfterPiece(texts[j], ' ', FieldsThen(texts[i..], command));
      FieldRoundTrip(fields[j]);
      FieldsOfNext(text, j, fields[..j], rem, texts[j], FieldsThen(texts[i..], command), fields[j]);
      TakeSnoc(fields, j);
    }
  }

  /** A timing whose text parses back to it: every shorthand, and explicit timings whose
      five fields are lossless. */
  predicate LosslessTiming(t: Timing)
  {
    t.Explicit? ==> forall f :: f in t.fields.Fields() ==> LosslessField(f)
  }

  /** The shorthand branch of `TimingOf`, for a line whose first piece is a literal. */
  lemma TimingOfShort(text: string, k: Shorthand)
    requires FromLiteral(Split(text, ' ')[0]) == Some(k)
    requires Words(text) != []
    ensures TimingOf(text) == Ok((Short(k), Join(Words(text)[1..], ' ')))
  {
  }

  /** A shorthand literal followed by a space is the first piece of its line. */
  lemma ShortLineFirstPiece(k: Shorthand, command: string)
    ensures Split(Literal(k) + " " + command, ' ')[0] == Literal(k)
  {
    LiteralShape(k);
    NoSpaceWithout(Literal(k), ' ');
    SplitAfterPiece(Literal(k), ' ', command);
  }

  /** A shorthand literal followed by a space is the first word of its line, and the
      remaining words are the command's. */
  lemma ShortLineWords(k: Shorthand, command: string)
    ensures Words(Literal(k) + " " + command) == [Literal(k)] + Words(command)
  {
    LiteralShape(k);
    WordsAfterWord(Literal(k), [' '] + command);
    assert Literal(k) + ([' '] + command) == Literal(k) + " " + command;
    assert ([' '] + command)[1..] == command;
  }

  /** A shorthand job line parses back to its shorthand and its single-spaced command. */
  lemma ShortRoundTrip(k: Shorthand, command: string)
    requires SingleSpaced(command)
    ensures TimingOf(Literal(k) + " " + command) == Ok((Short(k), command))
  {
    var text := Literal(k) + " " + command;
    ShortLineFirstPiece(k, command);
    ShortLineWords(k, command);
    FromLiteralExact(Literal(k), k);
    TimingOfShort(text, k);
    assert ([Literal(k)] + Words(command))[1..] == Words(command);
    SingleSpacedIff(command);
  }

  /** An explicit job line parses back to its timing and its command, whatever the
      command holds. */
  lemma ExplicitRoundTrip(e: ExplicitTiming, command: string)
    requires forall f :: f in e.Fields() ==> LosslessField(f)
    ensures TimingOf(ExplicitText(e) + " " + command) == Ok((Explicit(e), command))
  {
    var texts := FieldTexts(e);
    var fields := e.Fields();
    var text := ExplicitText(e) + " " + command;
    JoinThen(texts, command);
    FieldsOfRendered(fields, texts, command, 5);
    assert fields[..5] == fields && texts[5..] == [];
    FieldTextChars(e.minute);
    NoSpaceWithout(texts[0], ' ');
    SplitAfterPiece(texts[0], ' ', FieldsThen(texts[1..], command));
    assert Split(text, ' ')[0] == texts[0];
    NotALiteral(texts[0]);
  }

  /** A job line parses back to its timing and command when the timing is lossless and,
      after a shorthand, the command is single-spaced (the shorthand branch re-joins the
      command's words with single spaces). */
  lemma TimingRoundTrip(t: Timing, command: string)
    requires LosslessTiming(t)
    requires t.Short? ==> SingleSpaced(command)
    ensures TimingOf(TimingText(t) + " " + command) == Ok((t, command))
  {
    match t
    case Short(k) => ShortRoundTrip(k, command);
    case Explicit(e) => ExplicitRoundTrip(e, command);
  }

  /** A job whose line survives being written and read back. */
  predicate LosslessJob(j: Job)
  {
    LosslessTiming(j.timing) && (j.timing.Short? ==> SingleSpaced(j.command))
  }

  /** `from_job` inverts `to_job` for a lossless job: same title, timing and command. */
  lemma JobRoundTrip(j: Job)
    requires LosslessJob(j)
    ensures JobOf(JobLine(j), j.title) == Ok(j)
  {
    TimingRoundTrip(j.timing, j.command);
  }

  /** The words after the first, joined by single spaces, are single-spaced. */
  lemma RestOfWordsSingleSpaced(text: string)
    ensures SingleSpaced(Join(if Words(text) == [] then [] else Words(text)[1..], ' '))
  {
    var words := Words(text);
    var rest := if words == [] then [] else words[1..];
    if rest != [] {
      forall k | 0 <= k < |rest| ensures rest[k] != [] && NoSpace(rest[k]) {
        assert rest[k] == words[k + 1];
      }
      WordsOfJoin(rest);
      SingleSpacedIff(Join(rest, ' '));
    }
  }

  /** The explicit branch of `TimingOf`, for a line whose first piece is no literal. */
  lemma TimingOfExplicit(text: string, fs: seq<seq<Item>>, rest: string)
    requires FromLiteral(Split(text, ' ')[0]).None?
    requires FieldsOf(text, 5) == Ok((fs, rest))
    ensures |fs| == 5
    ensures TimingOf(text) == Ok((Explicit(ExplicitTiming(fs[0], fs[1], fs[2], fs[3], fs[4])), rest))
  {
  }

  /** Five parsed fields are the fields of the timing built from them. */
  lemma FieldsOfTiming(fs: seq<seq<Item>>)
    requires |fs| == 5
    ensures ExplicitTiming(fs[0], fs[1], fs[2], fs[3], fs[4]).Fields() == fs
  {
  }

  /** A parsed shorthand command is single-spaced, and every parsed field is non-empty
      and made of items the parser can produce. */
  lemma TimingOfShape(cronText: string, t: Timing, command: string)
    requires TimingOf(cronText) == Ok((t, command))
    ensures t.Short? ==> SingleSpaced(command)
    ensures t.Explicit? ==> forall f :: f in t.fields.Fields() ==> ParsedField(f)
  {
    if FromLiteral(Split(cronText, ' ')[0]).Some? {
      RestOfWordsSingleSpaced(cronText);
    } else {
      assert FieldsOf(cronText, 5).Ok?;
      var (fs, rest) := FieldsOf(cronText, 5).value;
      TimingOfExplicit(cronText, fs, rest);
      FieldsOfTiming(fs);
      FieldsOfShape(cronText, 5);
    }
  }

  /** Every field parsed from a job line is non-empty and made of parser-produced items. */
  lemma {:induction false} FieldsOfShape(text: string, n: nat)
    requires FieldsOf(text, n).Ok?
    ensures forall k :: 0 <= k < n ==> ParsedField(FieldsOf(text, n).value.0[k])
  {
    if n > 0 {
      FieldsOfShape(text, n - 1);
      var (fs, rem) := FieldsOf(text, n - 1).value;
      var (comp, rest) := Partition(rem, ' ');
      var f := FieldOf(comp).value;
      FieldOfShape(comp);
      FieldsOfNext(text, n - 1, fs, rem, comp, rest, f);
      ParsedFieldsSnoc(fs, f);
    }
  }

  /** One more parsed field after parsed fields. */
  lemma ParsedFieldsSnoc(fs: seq<seq<Item>>, f: seq<Item>)
    requires forall k :: 0 <= k < |fs| ==> ParsedField(fs[k])
    requires ParsedField(f)
    ensures forall k :: 0 <= k < |fs| + 1 ==> ParsedField((fs + [f])[k])
  {
    forall k | 0 <= k < |fs| + 1 ensures ParsedField((fs + [f])[k]) {
      if k < |fs| {
        assert (fs + [f])[k] == fs[k];
      }
    }
  }

  // ---------------------------------------------------------------------------
  // Examples
  // ---------------------------------------------------------------------------

  /** `3-45/3` is a step over the range 3-45 with frequency 3, and is written back as is. */
  lemma StepOverRangeExample()
    ensures FieldOf("3-45/3") == Ok([Step(Range(Exact(3), Exact(45)), Exact(3))])
    ensures FieldText([Step(Range(Exact(3), Exact(45)), Exact(3))]) == "3-45/3"
  {
    var v := Step(Range(Exact(3), Exact(45)), Exact(3));
    assert NatToString(45) == "45";
    assert CronStr(v) == "3-45/3";
    assert Canonical(v);
    FieldRoundTrip([v]);
  }

  /** `#42` is no item: it is not a decimal integer. */
  lemma NotAnItemExample()
    ensures FieldOf("#42") == Err(NotAnInteger("#42"))
  {
    FieldOfOneItem("#42");
    assert ParseNat("#42") == None by { assert !IsDigit("#42"[0]); }
  }

  /** `*-5` is a range from the wildcard. */
  lemma WildcardRangeExample()
    ensures FieldOf("*-5") == Ok([Range(Wildcard, Exact(5))])
  {
    FieldOfOneItem("*-5");
    assert Split("*-5", '-') == ["*", "5"] by {
      assert "*-5" == "*" + ['-'] + "5";
      SplitTwo("*", "5", '-');
    }
    assert ItemOf("5") == Ok(Exact(5)) by { SimpleText(Exact(5)); }
    assert ItemOf("*") == Ok(Wildcard);
  }

  /** A range from the wildcard is written `None-5`, which does not parse. */
  lemma WildcardRangeLost()
    ensures FieldText([Range(Wildcard, Exact(5))]) == "None-5"
    ensures FieldOf("None-5") == Err(NotAnInteger("None"))
  {
    var v := Range(Wildcard, Exact(5));
    assert CronStr(v) == "None-5";
    FieldOfOneItem("None-5");
    RangeText(Wildcard, Exact(5));
  }

  /** An empty item is not an integer. */
  lemma EmptyItemExample()
    ensures FieldOf("") == Err(NotAnInteger(""))
  {
    FieldOfOneItem("");
  }

  /** An item with two `/` does not split into the two sides of a step. */
  lemma DoubleStepExample()
    ensures FieldOf("1/2/3") == Err(WrongPieceCount("1/2/3", '/'))
  {
    assert |Split("1/2/3", '/')| == 3 by {
      assert "1/2/3" == "1" + ['/'] + "2" + ['/'] + "3";
      SplitThree("1", "2", "3", '/');
    }
    assert ItemOf("1/2/3") == Err(WrongPieceCount("1/2/3", '/'));
    FieldOfOneItem("1/2/3");
  }

  /** An item with two `-` does not split into the two ends of a range. */
  lemma DoubleRangeExample()
    ensures FieldOf("1-2-3") == Err(WrongPieceCount("1-2-3", '-'))
  {
    assert |Split("1-2-3", '-')| == 3 by {
      assert "1-2-3" == "1" + ['-'] + "2" + ['-'] + "3";
      SplitThree("1", "2", "3", '-');
    }
    assert ItemOf("1-2-3") == Err(WrongPieceCount("1-2-3", '-'));
    FieldOfOneItem("1-2-3");
  }

  /** A job line that runs out before its fifth field leaves an empty component, which
      does not parse. */
  lemma FieldsRunOut(text: string, k: nat, fs: seq<seq<Item>>)
    requires k < 5 && FieldsOf(text, k) == Ok((fs, ""))
    ensures FieldsOf(text, 5) == Err(NotAnInteger(""))
  {
    EmptyComponentFails(text, k, fs, "");
  }

  /** A space right after any of the first four fields, or at the start of the line,
      leaves the next component empty, so the five-field parse fails on `int("")`. */
  lemma EmptyComponentFails(text: string, k: nat, fs: seq<seq<Item>>, rem: string)
    requires k < 5 && FieldsOf(text, k) == Ok((fs, rem))
    requires rem == [] || rem[0] == ' '
    ensures FieldsOf(text, 5) == Err(NotAnInteger(""))
  {
    EmptyItemExample();
    assert Partition(rem, ' ').0 == [];
    assert FieldsOf(text, k + 1) == Err(NotAnInteger(""));
    FieldsOfFailure(text, k + 1, 5);
  }

  /** A line that is no shorthand and holds two spaces in a row, or runs out, among its
      five fields fails as a whole on the empty component. */
  lemma EmptyComponentTiming(text: string, k: nat, fs: seq<seq<Item>>, rem: string)
    requires FromLiteral(Split(text, ' ')[0]).None?
    requires k < 5 && FieldsOf(text, k) == Ok((fs, rem))
    requires rem == [] || rem[0] == ' '
    ensures TimingOf(text) == Err(NotAnInteger(""))
  {
    EmptyComponentFails(text, k, fs, rem);
  }

  /** A job line whose first field is followed by two spaces fails: the second field
      is empty. */
  lemma DoubledSpaceFails(first: string, rest: string)
    requires ' ' !in first && FromLiteral(first).None? && FieldOf(first).Ok?
    ensures TimingOf(first + "  " + rest) == Err(NotAnInteger(""))
  {
    var text := first + "  " + rest;
    var after := [' '] + rest;
    assert text == first + [' '] + after;
    SplitAfterPiece(first, ' ', after);
    PartitionAfterPiece(first, ' ', after);
    FieldsOfNext(text, 0, [], text, first, after, FieldOf(first).value);
    EmptyComponentTiming(text, 1, [] + [FieldOf(first).value], after);
  }

  /** `0  * * * x` fails on the empty second field. */
  lemma DoubledSpaceExample()
    ensures TimingOf("0  * * * x") == Err(NotAnInteger(""))
  {
    NotALiteral("0");
    assert ItemOf("0") == Ok(Exact(0)) by { SimpleText(Exact(0)); }
    FieldOfOneItem("0");
    assert "0  * * * x" == "0" + "  " + "* * * x";
    DoubledSpaceFails("0", "* * * x");
  }
}
