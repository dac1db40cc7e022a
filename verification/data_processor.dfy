/**
 * The decoder: reduces every subcomponent of a non-image buffer to one report
 * entry, in component-then-subcomponent order. The Mark subcomponent yields its
 * counter and flags from scan row 0; every other subcomponent yields the
 * zero-skipping sum and count of its sample grid, from which its mean follows.
 */
module DataProcessor {
  import opened Wrappers
  import opened BitFields
  import opened IconBuffer
  import opened SampleStats

  /** The only line reported for an image buffer. */
  const ImageMessage: string := "This is an image buffer.\n"

  /** One line of the report, as a record rather than a padded string. */
  datatype Entry =
    | Notice(text: string)
    | MarkLine(comp: string, sub: string, counter: int, overtrig: int, enable: int)
    | MeanLine(comp: string, sub: string, tally: Tally)
    | FloatLine(comp: string, sub: string)

  /** Why a decode stops: the Mark subcomponent has no second word in scan row 0 to read. */
  datatype DecodeError = MarkRowMissing(comp: string, sub: string)

  /** The value types whose samples are summed as one integer each. */
  predicate IsScalar(vt: ValueType)
  {
    vt.Byte? || vt.Word? || vt.DWord? || vt.Int?
  }

  /** Whether the Mark branch can read words 0 and 1 of scan row 0. */
  predicate MarkReadable(scans: nat, s: SubComponent)
  {
    scans > 0 && s.width >= 2
  }

  /**
   * The entry of one subcomponent. The Mark branch is taken on the name alone,
   * whatever the declared value type; an unrecognised value type takes no
   * branch of the switch and leaves the tally empty.
   */
  function DecodeUnit(scans: nat, u: Unit): (r: Result<Entry, DecodeError>)
    requires Shaped(scans, u.sub)
    ensures r.Failure? <==> u.sub.name == MarkName && !MarkReadable(scans, u.sub)
    ensures r.Failure? ==> r.error == MarkRowMissing(u.comp, u.sub.name)
    ensures r.Success? ==> !r.value.Notice? && r.value.comp == u.comp && r.value.sub == u.sub.name
    ensures r.Success? ==> (r.value.MarkLine? <==> u.sub.name == MarkName)
  {
    var s := u.sub;
    if s.name == MarkName then
      if !MarkReadable(scans, s) then Failure(MarkRowMissing(u.comp, s.name))
      else
        var counter := AsInt32(s.rows[0][0]);
        var flags := AsInt32(s.rows[0][1]);
        Success(MarkLine(u.comp, s.name, counter, Overtrig(flags), Enable(flags)))
    else
      match Classify(s.valueType)
      case Float => Success(FloatLine(u.comp, s.name))
      case Rgb2 => Success(MeanLine(u.comp, s.name, GridTally(Colour, s.rows, scans, s.width)))
      case Other(_) => Success(MeanLine(u.comp, s.name, Tally(0, 0)))
      case _ => Success(MeanLine(u.comp, s.name, GridTally(Scalar, s.rows, scans, s.width)))
  }

  /** Every unit of the sequence has a grid of the given height. */
  predicate AllShaped(scans: nat, us: seq<Unit>)
  {
    forall k :: 0 <= k < |us| ==> Shaped(scans, us[k].sub)
  }

  /**
   * The entries of a sequence of subcomponents, one per subcomponent, in order;
   * the first subcomponent that cannot be read aborts the whole decode.
   */
  function DecodeUnits(scans: nat, us: seq<Unit>): (r: Result<seq<Entry>, DecodeError>)
    requires AllShaped(scans, us)
    ensures r.Success? ==> |r.value| == |us|
  {
    if |us| == 0 then Success([])
    else
      var init, last := us[..|us| - 1], us[|us| - 1];
      assert forall k :: 0 <= k < |init| ==> init[k] == us[k];
      match DecodeUnits(scans, init)
      case Failure(e) => Failure(e)
      case Success(es) =>
        match DecodeUnit(scans, last)
        case Failure(e) => Failure(e)
        case Success(x) => Success(es + [x])
  }

  /** Decoding a sequence of subcomponents succeeds exactly when each one decodes. */
  lemma {:induction false} DecodeUnitsSucceedsIff(scans: nat, us: seq<Unit>)
    requires AllShaped(scans, us)
    ensures DecodeUnits(scans, us).Success? <==> forall k :: 0 <= k < |us| ==> DecodeUnit(scans, us[k]).Success?
  {
    if |us| > 0 {
      var init := us[..|us| - 1];
      assert forall k :: 0 <= k < |init| ==> init[k] == us[k];
      DecodeUnitsSucceedsIff(scans, init);
    }
  }

  /** On success, entry `k` is the entry of subcomponent `k`: one entry per subcomponent, in order. */
  lemma {:induction false} DecodeUnitsEntries(scans: nat, us: seq<Unit>)
    requires AllShaped(scans, us)
    requires DecodeUnits(scans, us).Success?
    ensures forall k :: 0 <= k < |us| ==>
      DecodeUnit(scans, us[k]).Success? && DecodeUnits(scans, us).value[k] == DecodeUnit(scans, us[k]).value
  {
    if |us| > 0 {
      var init := us[..|us| - 1];
      assert forall k :: 0 <= k < |init| ==> init[k] == us[k];
      DecodeUnitsEntries(scans, init);
    }
  }

  /** On failure, the error is that of the first subcomponent that cannot be decoded. */
  lemma {:induction false} DecodeUnitsFirstFailure(scans: nat, us: seq<Unit>)
    requires AllShaped(scans, us)
    requires DecodeUnits(scans, us).Failure?
    ensures exists k :: (
      && 0 <= k < |us|
      && DecodeUnit(scans, us[k]) == Failure(DecodeUnits(scans, us).error)
      && forall j :: 0 <= j < k ==> DecodeUnit(scans, us[j]).Success?)
  {
    var init := us[..|us| - 1];
    assert forall k :: 0 <= k < |init| ==> init[k] == us[k];
    if DecodeUnits(scans, init).Failure? {
      DecodeUnitsFirstFailure(scans, init);
      var k :| && 0 <= k < |init|
               && DecodeUnit(scans, init[k]) == Failure(DecodeUnits(scans, init).error)
               && forall j :: 0 <= j < k ==> DecodeUnit(scans, init[j]).Success?;
      assert us[k] == init[k];
    } else {
      DecodeUnitsSucceedsIff(scans, init);
      assert DecodeUnit(scans, us[|us| - 1]) == Failure(DecodeUnits(scans, us).error);
    }
  }

  /** The report of two parts one after the other: the first failure, or both lists of entries. */
  function Then(a: Result<seq<Entry>, DecodeError>, b: Result<seq<Entry>, DecodeError>): Result<seq<Entry>, DecodeError>
  {
    match a
    case Failure(e) => Failure(e)
    case Success(x) =>
      match b
      case Failure(e) => Failure(e)
      case Success(y) => Success(x + y)
  }

  /** Decoding a concatenation decodes the first part, then the second. */
  lemma {:induction false} DecodeUnitsAppend(scans: nat, us: seq<Unit>, vs: seq<Unit>)
    requires AllShaped(scans, us + vs)
    ensures AllShaped(scans, us) && AllShaped(scans, vs)
    ensures DecodeUnits(scans, us + vs) == Then(DecodeUnits(scans, us), DecodeUnits(scans, vs))
    decreases |vs|
  {
    var ws := us + vs;
    assert forall k :: 0 <= k < |us| ==> ws[k] == us[k];
    assert forall k :: 0 <= k < |vs| ==> ws[|us| + k] == vs[k];
    if |vs| == 0 {
      assert ws == us;
      var a := DecodeUnits(scans, us);
      if a.Success? {
        assert a.value + [] == a.value;
      }
    } else {
      var vs', last := vs[..|vs| - 1], vs[|vs| - 1];
      assert ws[..|ws| - 1] == us + vs';
      DecodeUnitsAppend(scans, us, vs');
      var a, b' := DecodeUnits(scans, us), DecodeUnits(scans, vs');
      var x := DecodeUnit(scans, last);
      assert DecodeUnits(scans, us + vs') == Then(a, b');
      assert ws[|ws| - 1] == last;
      if a.Success? && b'.Success? && x.Success? {
        assert (a.value + b'.value) + [x.value] == a.value + (b'.value + [x.value]);
      }
    }
  }

  /** The units of a well-shaped buffer all have grids of the buffer's height. */
  lemma BufferUnitsShaped(b: Buffer)
    requires WellShaped(b)
    ensures AllShaped(b.scans, Units(b.comps))
  {
    UnitsShaped(b);
    forall k | 0 <= k < |Units(b.comps)|
      ensures Shaped(b.scans, Units(b.comps)[k].sub)
    {
      assert Units(b.comps)[k] in Units(b.comps);
    }
  }

  /** Some Mark subcomponent of the buffer has no readable second word in scan row 0. */
  predicate HasUnreadableMark(b: Buffer)
  {
    exists c, s :: c in b.comps && s in c.subs && s.name == MarkName && !MarkReadable(b.scans, s)
  }

  /** A decode failure comes from an unreadable Mark subcomponent of the buffer. */
  lemma {:induction false} FailureHasUnreadableMark(b: Buffer)
    requires WellShaped(b)
    requires AllShaped(b.scans, Units(b.comps))
    requires DecodeUnits(b.scans, Units(b.comps)).Failure?
    ensures HasUnreadableMark(b)
    ensures exists c, s :: (c in b.comps && s in c.subs && s.name == MarkName && !MarkReadable(b.scans, s) &&
      DecodeUnits(b.scans, Units(b.comps)).error == MarkRowMissing(c.name, s.name))
  {
    var us := Units(b.comps);
    var r := DecodeUnits(b.scans, us);
    DecodeUnitsFirstFailure(b.scans, us);
    var k :| 0 <= k < |us| && DecodeUnit(b.scans, us[k]) == Failure(r.error);
    assert us[k] in us;
    UnitsMembers(b.comps);
    var c :| c in b.comps && us[k].comp == c.name && us[k].sub in c.subs;
    var s := us[k].sub;
    assert r.error == MarkRowMissing(c.name, s.name);
    assert c in b.comps && s in c.subs && s.name == MarkName && !MarkReadable(b.scans, s);
  }

  /** An unreadable Mark subcomponent anywhere in the buffer makes the decode fail. */
  lemma {:induction false} UnreadableMarkFails(b: Buffer)
    requires WellShaped(b)
    requires AllShaped(b.scans, Units(b.comps))
    requires HasUnreadableMark(b)
    ensures DecodeUnits(b.scans, Units(b.comps)).Failure?
  {
    var us := Units(b.comps);
    var c, s :| c in b.comps && s in c.subs && s.name == MarkName && !MarkReadable(b.scans, s);
    var i :| 0 <= i < |b.comps| && b.comps[i] == c;
    var j :| 0 <= j < |c.subs| && c.subs[j] == s;
    UnitsOrder(b.comps, i, j);
    var p := Offset(b.comps, i) + j;
    assert us[p] == Unit(c.name, s);
    assert DecodeUnit(b.scans, us[p]).Failure?;
    DecodeUnitsSucceedsIff(b.scans, us);
  }

  /** Decoding a buffer's subcomponents fails exactly when one of its Mark subcomponents is unreadable. */
  lemma DecodeFailsIffUnreadableMark(b: Buffer)
    requires WellShaped(b)
    ensures AllShaped(b.scans, Units(b.comps))
    ensures DecodeUnits(b.scans, Units(b.comps)).Failure? <==> HasUnreadableMark(b)
  {
    BufferUnitsShaped(b);
    if DecodeUnits(b.scans, Units(b.comps)).Failure? {
      FailureHasUnreadableMark(b);
    }
    if HasUnreadableMark(b) {
      UnreadableMarkFails(b);
    }
  }

  /**
   * The report of a buffer: a single notice for an image buffer, whose
   * components are never looked at; otherwise the decode of its subcomponents
   * in visiting order.
   */
  function Decode(b: Buffer): (r: Result<seq<Entry>, DecodeError>)
    requires WellShaped(b)
    ensures b.formatName == ImageFormatName ==> r == Success([Notice(ImageMessage)])
  {
    if b.formatName == ImageFormatName then Success([Notice(ImageMessage)])
    else
      BufferUnitsShaped(b);
      DecodeUnits(b.scans, Units(b.comps))
  }

  /** Outside the image case, the report is the decode of the subcomponents in visiting order. */
  lemma DecodeIsDecodeUnits(b: Buffer)
    requires WellShaped(b) && b.formatName != ImageFormatName
    ensures AllShaped(b.scans, Units(b.comps))
    ensures Decode(b) == DecodeUnits(b.scans, Units(b.comps))
  {
    BufferUnitsShaped(b);
  }

  /**
   * Outside the image case the report has one entry per subcomponent and no
   * notice, and it is an error exactly when some Mark subcomponent is unreadable.
   */
  lemma DecodeReport(b: Buffer)
    requires WellShaped(b) && b.formatName != ImageFormatName
    ensures Decode(b).Success? ==> |Decode(b).value| == SubCount(b.comps)
    ensures Decode(b).Success? ==> forall e :: e in Decode(b).value ==> !e.Notice?
    ensures Decode(b).Failure? <==> HasUnreadableMark(b)
  {
    DecodeIsDecodeUnits(b);
    DecodeFailsIffUnreadableMark(b);
    var r := Decode(b);
    if r.Success? {
      DecodeUnitsEntries(b.scans, Units(b.comps));
    }
  }

  /** One subcomponent, decoded as the source does it: the Mark words, or the nested sample loops. */
  method DecodeSubComponent(scans: nat, u: Unit) returns (r: Result<Entry, DecodeError>)
    requires Shaped(scans, u.sub)
    ensures r == DecodeUnit(scans, u)
  {
    var s := u.sub;
    if s.name == MarkName {
      if !MarkReadable(scans, s) {
        return Failure(MarkRowMissing(u.comp, s.name));
      }
      var counter := AsInt32(s.rows[0][0]);
      var flags := AsInt32(s.rows[0][1]);
      return Success(MarkLine(u.comp, s.name, counter, Overtrig(flags), Enable(flags)));
    }
    var t := Tally(0, 0);
    match Classify(s.valueType) {
      case Float =>
        return Success(FloatLine(u.comp, s.name));
      case Byte =>
        t := Accumulate(Scalar, s.rows, scans, s.width);
      case Word =>
        t := Accumulate(Scalar, s.rows, scans, s.width);
      case DWord =>
        t := Accumulate(Scalar, s.rows, scans, s.width);
      case Int =>
        t := Accumulate(Scalar, s.rows, scans, s.width);
      case Rgb2 =>
        t := Accumulate(Colour, s.rows, scans, s.width);
      case Other(_) =>
    }
    return Success(MeanLine(u.comp, s.name, t));
  }

  /** The inner loop of the decoder: the subcomponents of one component, in order. */
  method DecodeSubComponents(scans: nat, name: string, subs: seq<SubComponent>) returns (r: Result<seq<Entry>, DecodeError>)
    requires AllShaped(scans, Tag(name, subs))
    ensures r == DecodeUnits(scans, Tag(name, subs))
  {
    var entries: seq<Entry> := [];
    var j := 0;
    assert Tag(name, subs[..0]) == [];
    while j < |subs|
      invariant 0 <= j <= |subs|
      invariant AllShaped(scans, Tag(name, subs[..j]))
      invariant DecodeUnits(scans, Tag(name, subs[..j])) == Success(entries)
    {
      SubComponentStep(scans, name, subs, j, entries);
      var e := DecodeSubComponent(scans, Unit(name, subs[j]));
      if e.Failure? {
        return Failure(e.error);
      }
      entries := entries + [e.value];
      j := j + 1;
    }
    assert subs[..|subs|] == subs;
    r := Success(entries);
  }

  /**
   * Adding subcomponent `j` to the decoded prefix of a component decodes it
   * after the earlier ones, and a failure there is the component's failure.
   */
  lemma SubComponentStep(scans: nat, name: string, subs: seq<SubComponent>, j: nat, entries: seq<Entry>)
    requires j < |subs|
    requires AllShaped(scans, Tag(name, subs))
    ensures AllShaped(scans, Tag(name, subs[..j]))
    ensures AllShaped(scans, Tag(name, subs[..j + 1]))
    ensures Shaped(scans, subs[j])
    ensures DecodeUnits(scans, Tag(name, subs[..j])) == Success(entries) ==>
      && (DecodeUnit(scans, Unit(name, subs[j])).Failure? ==>
            DecodeUnits(scans, Tag(name, subs)) == Failure(DecodeUnit(scans, Unit(name, subs[j])).error))
      && (DecodeUnit(scans, Unit(name, subs[j])).Success? ==>
            DecodeUnits(scans, Tag(name, subs[..j + 1])) == Success(entries + [DecodeUnit(scans, Unit(name, subs[j])).value]))
  {
    var pre, next, rest := Tag(name, subs[..j]), Tag(name, subs[..j + 1]), Tag(name, subs[j + 1..]);
    TagSplit(name, subs, j);
    AllShapedAppend(scans, next, rest);
    DecodeUnitsSnoc(scans, pre, Unit(name, subs[j]));
    if DecodeUnits(scans, next).Failure? {
      FailureIsFinal(scans, next, rest);
    }
  }

  /** Both parts of a concatenation are shaped when the whole is. */
  lemma AllShapedAppend(scans: nat, us: seq<Unit>, vs: seq<Unit>)
    requires AllShaped(scans, us + vs)
    ensures AllShaped(scans, us) && AllShaped(scans, vs)
  {
    var ws := us + vs;
    assert forall k :: 0 <= k < |us| ==> ws[k] == us[k];
    assert forall k :: 0 <= k < |vs| ==> ws[|us| + k] == vs[k];
  }

  /** Decoding one more unit appends its entry, or stops with its error. */
  lemma DecodeUnitsSnoc(scans: nat, us: seq<Unit>, u: Unit)
    requires AllShaped(scans, us + [u])
    ensures AllShaped(scans, us) && Shaped(scans, u.sub)
    ensures DecodeUnits(scans, us).Success? && DecodeUnit(scans, u).Success? ==>
              DecodeUnits(scans, us + [u]) == Success(DecodeUnits(scans, us).value + [DecodeUnit(scans, u).value])
    ensures DecodeUnits(scans, us).Success? && DecodeUnit(scans, u).Failure? ==>
              DecodeUnits(scans, us + [u]) == Failure(DecodeUnit(scans, u).error)
  {
    AllShapedAppend(scans, us, [u]);
    var ws := us + [u];
    assert ws[..|ws| - 1] == us;
    assert ws[|ws| - 1] == u;
  }

  /** Once a prefix fails, decoding more units keeps its error. */
  lemma FailureIsFinal(scans: nat, us: seq<Unit>, vs: seq<Unit>)
    requires AllShaped(scans, us + vs)
    requires AllShaped(scans, us) && DecodeUnits(scans, us).Failure?
    ensures DecodeUnits(scans, us + vs) == DecodeUnits(scans, us)
  {
    DecodeUnitsAppend(scans, us, vs);
  }

  /**
   * Adding component `i` to the decoded prefix decodes its subcomponents after
   * those of the earlier components, and a failure there is the buffer's failure.
   */
  lemma ComponentStep(scans: nat, cs: seq<Component>, i: nat)
    requires i < |cs|
    requires AllShaped(scans, Units(cs))
    ensures AllShaped(scans, Units(cs[..i]))
    ensures AllShaped(scans, Units(cs[..i + 1]))
    ensures AllShaped(scans, Tag(cs[i].name, cs[i].subs))
    ensures DecodeUnits(scans, Units(cs[..i + 1]))
         == Then(DecodeUnits(scans, Units(cs[..i])), DecodeUnits(scans, Tag(cs[i].name, cs[i].subs)))
    ensures DecodeUnits(scans, Units(cs[..i + 1])).Failure? ==>
              DecodeUnits(scans, Units(cs)) == DecodeUnits(scans, Units(cs[..i + 1]))
  {
    var next := Units(cs[..i + 1]);
    UnitsSnoc(cs, i);
    UnitsPrefix(cs, i + 1);
    var rest := Units(cs)[|next|..];
    assert Units(cs) == next + rest;
    DecodeUnitsAppend(scans, next, rest);
    DecodeUnitsAppend(scans, Units(cs[..i]), Tag(cs[i].name, cs[i].subs));
  }

  /**
   * The decoder as the source writes it: a loop over components and, inside it,
   * a loop over subcomponents, appending one entry per subcomponent.
   */
  method AccessData(b: Buffer) returns (r: Result<seq<Entry>, DecodeError>)
    requires WellShaped(b)
    ensures r == Decode(b)
  {
    if b.formatName == ImageFormatName {
      return Success([Notice(ImageMessage)]);
    }
    BufferUnitsShaped(b);
    var entries: seq<Entry> := [];
    var i := 0;
    while i < |b.comps|
      invariant 0 <= i <= |b.comps|
      invariant AllShaped(b.scans, Units(b.comps[..i]))
      invariant DecodeUnits(b.scans, Units(b.comps[..i])) == Success(entries)
    {
      var c := b.comps[i];
      ComponentStep(b.scans, b.comps, i);
      var e := DecodeSubComponents(b.scans, c.name, c.subs);
      if e.Failure? {
        return Failure(e.error);
      }
      entries := entries + e.value;
      i := i + 1;
    }
    assert b.comps[..|b.comps|] == b.comps;
    r := Success(entries);
  }
}
