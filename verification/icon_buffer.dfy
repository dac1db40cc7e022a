/**
 * The self-describing scan buffer handed to the decoder: a buffer of components,
 * each a named group of subcomponents, each subcomponent a grid of samples of a
 * declared value type. The vendor accessors (`GetRows<T>`, lookup by name) are
 * replaced by the grid itself.
 */
module IconBuffer {

  /** Format name of a buffer holding an image rather than profile components. */
  const ImageFormatName: string := "IMAGE"

  /** Name of the subcomponent carrying scan counters and status flags. */
  const MarkName: string := "Mark"

  /** The value types a subcomponent may declare; `Other` keeps any unrecognised name. */
  datatype ValueType = Byte | Word | DWord | Int | Float | Rgb2 | Other(name: string)

  /** The declared name of a value type as it appears in a subcomponent format. */
  function TypeName(vt: ValueType): string
  {
    match vt
    case Byte => "BYTE"
    case Word => "WORD"
    case DWord => "DWORD"
    case Int => "INT"
    case Float => "FLOAT"
    case Rgb2 => "RGB2"
    case Other(name) => name
  }

  /** The names the decoder recognises. */
  const KnownTypeNames: set<string> := {"BYTE", "WORD", "DWORD", "INT", "FLOAT", "RGB2"}

  /**
   * Classifies a declared value-type name, as the decoder's switch does: each of
   * the six case labels selects its type, and any other name matches no case.
   */
  function Classify(s: string): (vt: ValueType)
    ensures TypeName(vt) == s
    ensures vt.Other? <==> s !in KnownTypeNames
  {
    if s == "BYTE" then Byte
    else if s == "WORD" then Word
    else if s == "DWORD" then DWord
    else if s == "INT" then Int
    else if s == "FLOAT" then Float
    else if s == "RGB2" then Rgb2
    else Other(s)
  }

  /** Classifying the name of a value type gives that value type back. */
  lemma ClassifyTypeName(vt: ValueType)
    requires vt.Other? ==> vt.name !in KnownTypeNames
    ensures Classify(TypeName(vt)) == vt
  {
  }

  /** Whether `v` is a value of the declared type (a C# byte, ushort, uint or int). */
  predicate InRange(vt: ValueType, v: int)
  {
    match vt
    case Byte => 0 <= v < 0x100
    case Word => 0 <= v < 0x1_0000
    case DWord => 0 <= v < 0x1_0000_0000
    case Rgb2 => 0 <= v < 0x1_0000_0000
    case Int => -0x8000_0000 <= v < 0x8000_0000
    case Float => true
    case Other(_) => true
  }

  /** A subcomponent: its format name, declared value type, width and sample rows. */
  datatype SubComponent = SubComponent(name: string, valueType: string, width: nat, rows: seq<seq<int>>)

  /** A component: its format name and its subcomponents in buffer order. */
  datatype Component = Component(name: string, subs: seq<SubComponent>)

  /** A buffer: its format name, its height (number of scans) and its components. */
  datatype Buffer = Buffer(formatName: string, scans: nat, comps: seq<Component>)

  /** A subcomponent's grid has one row per scan, each at least `width` samples long. */
  predicate Shaped(scans: nat, s: SubComponent)
  {
    |s.rows| == scans && forall i :: 0 <= i < scans ==> |s.rows[i]| >= s.width
  }

  /** Every subcomponent of the buffer has a grid of the buffer's height. */
  predicate WellShaped(b: Buffer)
  {
    forall c, s :: c in b.comps && s in c.subs ==> Shaped(b.scans, s)
  }

  /** Every sample the decoder may read lies in the range of its declared type. */
  predicate SamplesInRange(s: SubComponent)
  {
    forall i, j :: 0 <= i < |s.rows| && 0 <= j < |s.rows[i]| ==> InRange(Classify(s.valueType), s.rows[i][j])
  }

  /** A subcomponent together with the name of the component it belongs to. */
  datatype Unit = Unit(comp: string, sub: SubComponent)

  /** The subcomponents of one component, tagged with the component's name. */
  function Tag(name: string, subs: seq<SubComponent>): (us: seq<Unit>)
    ensures |us| == |subs|
    ensures forall j :: 0 <= j < |subs| ==> us[j] == Unit(name, subs[j])
  {
    seq(|subs|, j requires 0 <= j < |subs| => Unit(name, subs[j]))
  }

  /** Tagging splits along with the subcomponents: at `j + 1`, and at the single subcomponent `j`. */
  lemma TagSplit(name: string, subs: seq<SubComponent>, j: nat)
    requires j < |subs|
    ensures Tag(name, subs) == Tag(name, subs[..j + 1]) + Tag(name, subs[j + 1..])
    ensures Tag(name, subs[..j + 1]) == Tag(name, subs[..j]) + [Unit(name, subs[j])]
  {
    var t := Tag(name, subs);
    TagPrefix(name, subs, j + 1);
    TagSuffix(name, subs, j + 1);
    TagPrefix(name, subs, j);
    assert t == t[..j + 1] + t[j + 1..];
    assert t[..j + 1] == t[..j] + [t[j]];
  }

  /** Tagging a prefix of the subcomponents gives the same prefix of the tagged subcomponents. */
  lemma TagPrefix(name: string, subs: seq<SubComponent>, i: nat)
    requires i <= |subs|
    ensures Tag(name, subs[..i]) == Tag(name, subs)[..i]
  {
    var x, y := Tag(name, subs[..i]), Tag(name, subs)[..i];
    assert forall k :: 0 <= k < |x| ==> x[k] == y[k];
  }

  /** Tagging a suffix of the subcomponents gives the same suffix of the tagged subcomponents. */
  lemma TagSuffix(name: string, subs: seq<SubComponent>, i: nat)
    requires i <= |subs|
    ensures Tag(name, subs[i..]) == Tag(name, subs)[i..]
  {
    var x, y := Tag(name, subs[i..]), Tag(name, subs)[i..];
    assert forall k :: 0 <= k < |x| ==> x[k] == y[k];
  }

  /** Number of subcomponents in the given components. */
  function SubCount(cs: seq<Component>): nat
  {
    if |cs| == 0 then 0 else SubCount(cs[..|cs| - 1]) + |cs[|cs| - 1].subs|
  }

  /**
   * The subcomponents in the order the decoder visits them: component by
   * component, and within a component in subcomponent order.
   */
  function Units(cs: seq<Component>): (us: seq<Unit>)
    ensures |us| == SubCount(cs)
  {
    if |cs| == 0 then []
    else
      var last := cs[|cs| - 1];
      Units(cs[..|cs| - 1]) + Tag(last.name, last.subs)
  }

  /** Every visited subcomponent belongs to a component of the buffer, under that component's name. */
  lemma {:induction false} UnitsMembers(cs: seq<Component>)
    ensures forall u :: u in Units(cs) ==> exists c :: c in cs && u.comp == c.name && u.sub in c.subs
  {
    if |cs| > 0 {
      var init, last := cs[..|cs| - 1], cs[|cs| - 1];
      UnitsMembers(init);
      var here := Tag(last.name, last.subs);
      assert Units(cs) == Units(init) + here;
      forall u | u in Units(cs)
        ensures exists c :: c in cs && u.comp == c.name && u.sub in c.subs
      {
        if u in Units(init) {
          var c :| c in init && u.comp == c.name && u.sub in c.subs;
          assert c in cs;
        } else {
          var j :| 0 <= j < |here| && here[j] == u;
          assert u.comp == last.name && u.sub == last.subs[j];
          assert last in cs;
        }
      }
    }
  }

  /** Units of a longer prefix extend the units of the shorter one by the next component. */
  lemma UnitsSnoc(cs: seq<Component>, i: nat)
    requires i < |cs|
    ensures Units(cs[..i + 1]) == Units(cs[..i]) + Tag(cs[i].name, cs[i].subs)
  {
    assert cs[..i + 1][..i] == cs[..i];
  }

  /** Visiting a prefix of the components visits a prefix of the subcomponents. */
  lemma {:induction false} UnitsPrefix(cs: seq<Component>, i: nat)
    requires i <= |cs|
    ensures Units(cs[..i]) <= Units(cs)
    decreases |cs|
  {
    assert cs[..|cs|] == cs;
    if i < |cs| {
      var init := cs[..|cs| - 1];
      assert init[..i] == cs[..i];
      UnitsPrefix(init, i);
    }
  }

  /** Where the subcomponents of component `i` start in the visiting order. */
  function Offset(cs: seq<Component>, i: nat): nat
    requires i <= |cs|
  {
    SubCount(cs[..i])
  }

  /**
   * Subcomponent `j` of component `i` is visited at position `Offset(cs, i) + j`,
   * so no subcomponent is skipped and the order is component-then-subcomponent.
   */
  lemma UnitsOrder(cs: seq<Component>, i: nat, j: nat)
    requires i < |cs| && j < |cs[i].subs|
    ensures Offset(cs, i) + j < |Units(cs)|
    ensures Units(cs)[Offset(cs, i) + j] == Unit(cs[i].name, cs[i].subs[j])
  {
    UnitsSnoc(cs, i);
    UnitsPrefix(cs, i + 1);
    var before, here := Units(cs[..i]), Tag(cs[i].name, cs[i].subs);
    var p := Units(cs[..i + 1]);
    assert |before| == Offset(cs, i);
    assert p == before + here;
    AppendIndex(before, here, j);
    assert Units(cs)[|before| + j] == p[|before| + j];
  }

  /** Position `|a| + j` of `a + b` holds element `j` of `b`. */
  lemma AppendIndex<T>(a: seq<T>, b: seq<T>, j: nat)
    requires j < |b|
    ensures |a| + j < |a + b| && (a + b)[|a| + j] == b[j]
  {
  }

  /** Every visited subcomponent has a well-shaped grid. */
  lemma UnitsShaped(b: Buffer)
    requires WellShaped(b)
    ensures forall u :: u in Units(b.comps) ==> Shaped(b.scans, u.sub)
  {
    UnitsMembers(b.comps);
  }
}
