/** Writing a successful response back onto the page: the per-key part of
    `handleAJAX` (data/script.js:236-309). Each key is decoded onto the
    elements named after it; four names hold four-part values, two of them
    with a dotted text mirror, `bcAddress` has the mirror alone, and the two
    port modes also switch the visibility of the controls that depend on
    them. */
module FormDecode {
  import opened JsValues
  import opened Dom
  import opened FormSerialise

  /** Four-part values whose parts are also joined into a mirror element
      named after the key with a trailing `T`. */
  const MirroredQuadNames: set<string> := {"ipAddress", "subAddress"}

  /** Four-part values without a mirror. */
  const QuadNames: set<string> :=
    {"gwAddress", "dmxInBroadcast", "portAuni", "portBuni", "portAsACNuni", "portBsACNuni"}

  /** One member of the parsed response, in the order `for (key in response)`
      visits them. */
  datatype Member = Member(key: string, value: Value)

  /** `response.hasOwnProperty(key)`. */
  predicate Has(fields: seq<Member>, key: string) {
    exists i :: 0 <= i < |fields| && fields[i].key == key
  }

  /** `response[key]`: the member's value, `undefined` when it is missing. */
  function Lookup(fields: seq<Member>, key: string): (v: Value)
    ensures !Has(fields, key) ==> v == Undefined
    ensures Has(fields, key) ==> exists i :: 0 <= i < |fields| && fields[i] == Member(key, v)
  {
    if fields == [] then Undefined
    else if fields[0].key == key then fields[0].value
    else Lookup(fields[1..], key)
  }

  /** What `JSON.parse` yields: an object keeps one member per key. */
  predicate DistinctKeys(fields: seq<Member>) {
    forall i, j :: 0 <= i < j < |fields| ==> fields[i].key != fields[j].key
  }

  /** With one member per key, `response[key]` is the value of the member
      that carries the key. */
  lemma {:induction false} LookupDistinct(fields: seq<Member>, i: nat)
    requires DistinctKeys(fields) && i < |fields|
    ensures Lookup(fields, fields[i].key) == fields[i].value
    decreases i
  {
    if i > 0 {
      assert fields[0].key != fields[i].key;
      assert DistinctKeys(fields[1..]) by {
        forall a, b | 0 <= a < b < |fields[1..]| ensures fields[1..][a].key != fields[1..][b].key {
          assert fields[1..][a] == fields[a + 1] && fields[1..][b] == fields[b + 1];
        }
      }
      LookupDistinct(fields[1..], i - 1);
      assert fields[1..][i - 1] == fields[i];
    }
  }

  /** A response that passes both checks of `handleAJAX`: it has a
      `success` member, and that member `== 1`. */
  predicate Succeeded(fields: seq<Member>) {
    Has(fields, "success") && LooseEqualsNumber(Lookup(fields, "success"), 1)
  }

  // ---------------------------------------------------------------------
  // One element

  /** The first option from position `y` on whose value equals `v` under
      JavaScript's `==`. */
  function FirstMatch(options: seq<string>, v: Value, y: nat): (r: Option<nat>)
    requires y <= |options|
    ensures r.Some? ==> y <= r.value < |options| && LooseEqualsString(options[r.value], v)
    ensures r.Some? ==> forall t :: y <= t < r.value ==> !LooseEqualsString(options[t], v)
    ensures r.None? ==> forall t :: y <= t < |options| ==> !LooseEqualsString(options[t], v)
    decreases |options| - y
  {
    if y == |options| then None
    else if LooseEqualsString(options[y], v) then Some(y)
    else FirstMatch(options, v, y + 1)
  }

  /** The value `v` written onto one element, by its kind: a P or DIV shows
      its text, a checkbox is checked by `v == 1`, another input takes its
      text as `value`, a select moves to the first matching option (and
      keeps its selection when none matches), anything else is left. */
  function Decode(e: Element, c: Control, v: Value): (r: Control)
    ensures e.kind == CheckboxInput ==> r == c.(checked := r.checked) && (r.checked <==> LooseEqualsNumber(v, 1))
    ensures e.kind == SelectList ==> r == c.(selectedIndex := r.selectedIndex)
    ensures e.kind == SelectList ==>
      if exists t :: 0 <= t < |e.options| && LooseEqualsString(e.options[t], v)
      then 0 <= r.selectedIndex < |e.options| && LooseEqualsString(e.options[r.selectedIndex], v)
        && forall t :: 0 <= t < r.selectedIndex ==> !LooseEqualsString(e.options[t], v)
      else r == c
  {
    match e.kind
    case TextBlock => c.(text := ToStr(v))
    case CheckboxInput => c.(checked := LooseEqualsNumber(v, 1))
    case TextInput => c.(value := ToStr(v))
    case NumberInput => c.(value := ToStr(v))
    case OtherInput => c.(value := ToStr(v))
    case SelectList =>
      (match FirstMatch(e.options, v, 0)
       case None => c
       case Some(y) => c.(selectedIndex := y))
    case OtherElement => c
  }

  /** Every element named `key` decoded from `v`; the others unchanged. */
  function DecodeNamed(markup: seq<Element>, controls: seq<Control>, key: string, v: Value): (r: seq<Control>)
    requires |controls| == |markup|
    ensures |r| == |controls|
  {
    seq(|controls|, j requires 0 <= j < |controls| =>
      if markup[j].name == key then Decode(markup[j], controls[j], v) else controls[j])
  }

  // ---------------------------------------------------------------------
  // Four-part values, mirrors and visibility
  //
  // `a[z]` for `a = getElementsByName(name)` is the element of that name with
  // rank `z` (Dom.NamedRanks), so each write below is stated per element.

  /** The elements named `key` of rank below `n` take the text of the part
      of `v` with their rank as their `value`. */
  function WriteParts(markup: seq<Element>, controls: seq<Control>, key: string, v: Value, n: nat): (r: seq<Control>)
    requires |controls| == |markup|
    ensures |r| == |controls|
  {
    seq(|controls|, j requires 0 <= j < |controls| =>
      if markup[j].name == key && Rank(markup, j) < n
      then controls[j].(value := ToStr(Elem(v, Rank(markup, j))))
      else controls[j])
  }

  /** The mirror text after `n` parts: the parts' texts joined by `" . "`. */
  function MirrorUpTo(v: Value, n: nat): string {
    if n == 0 then ""
    else (if n == 1 then "" else MirrorUpTo(v, n - 1) + " . ") + ToStr(Elem(v, n - 1))
  }

  /** The whole mirror text of a four-part value. */
  function Dotted(v: Value): string {
    MirrorUpTo(v, 4)
  }

  /** The first element named `name` shows `t`. */
  function SetText(markup: seq<Element>, controls: seq<Control>, name: string, t: string): (r: seq<Control>)
    requires |controls| == |markup|
    ensures |r| == |controls|
  {
    seq(|controls|, j requires 0 <= j < |controls| =>
      if markup[j].name == name && Rank(markup, j) == 0 then controls[j].(text := t) else controls[j])
  }

  /** The first `n` elements named `name` are shown or hidden. */
  function SetShown(markup: seq<Element>, controls: seq<Control>, name: string, n: nat, on: bool): (r: seq<Control>)
    requires |controls| == |markup|
    ensures |r| == |controls|
  {
    seq(|controls|, j requires 0 <= j < |controls| =>
      if markup[j].name == name && Rank(markup, j) < n then controls[j].(shown := on) else controls[j])
  }

  // ---------------------------------------------------------------------
  // One response key

  /** How `handleAJAX` treats a response key. */
  datatype Handling =
    | MirroredQuad   // four parts and a dotted mirror named key + "T"
    | MirrorOnly     // a dotted mirror in the element named key
    | Quad           // four parts
    | PortA          // port A's mode: visibility rule, then the plain writes
    | PortB          // port B's mode: visibility rule, then the plain writes
    | Plain          // every element named key decoded by its kind

  function HandlingOf(key: string): Handling {
    if key in MirroredQuadNames then MirroredQuad
    else if key == "bcAddress" then MirrorOnly
    else if key in QuadNames then Quad
    else if key == "portAmode" then PortA
    else if key == "portBmode" then PortB
    else Plain
  }

  /** The elements a key's handling indexes exist; otherwise `handleAJAX`
      throws while writing that key. */
  predicate Decodable(markup: seq<Element>, key: string) {
    match HandlingOf(key)
    case MirroredQuad => 4 <= Count(markup, key) && 1 <= Count(markup, key + "T")
    case MirrorOnly => 1 <= Count(markup, key)
    case Quad => 4 <= Count(markup, key)
    case PortA => 2 <= Count(markup, "portApix") && 1 <= Count(markup, "DmxInBcAddrA")
    case PortB => 2 <= Count(markup, "portBpix")
    case Plain => true
  }

  /** Port A's visibility rule: both pixel controls show when the mode is 3,
      the broadcast-address control when it is 2. */
  function PortARule(markup: seq<Element>, controls: seq<Control>, v: Value): (r: seq<Control>)
    requires |controls| == |markup|
    ensures |r| == |controls|
  {
    SetShown(markup, SetShown(markup, controls, "portApix", 2, LooseEqualsNumber(v, 3)),
             "DmxInBcAddrA", 1, LooseEqualsNumber(v, 2))
  }

  /** Port B's visibility rule: both pixel controls show when the mode is 3. */
  function PortBRule(markup: seq<Element>, controls: seq<Control>, v: Value): (r: seq<Control>)
    requires |controls| == |markup|
    ensures |r| == |controls|
  {
    SetShown(markup, controls, "portBpix", 2, LooseEqualsNumber(v, 3))
  }

  /** The whole effect of one response member on the controls. */
  function ApplyField(markup: seq<Element>, controls: seq<Control>, key: string, v: Value): (r: seq<Control>)
    requires |controls| == |markup| && Decodable(markup, key)
    ensures |r| == |controls|
  {
    match HandlingOf(key)
    case MirroredQuad => SetText(markup, WriteParts(markup, controls, key, v, 4), key + "T", Dotted(v))
    case MirrorOnly => SetText(markup, controls, key, Dotted(v))
    case Quad => WriteParts(markup, controls, key, v, 4)
    case PortA => DecodeNamed(markup, PortARule(markup, controls, v), key, v)
    case PortB => DecodeNamed(markup, PortBRule(markup, controls, v), key, v)
    case Plain => DecodeNamed(markup, controls, key, v)
  }

  /** Every response key can be written. */
  predicate AllDecodable(markup: seq<Element>, fields: seq<Member>) {
    forall i :: 0 <= i < |fields| ==> Decodable(markup, fields[i].key)
  }

  /** The first `n` response members applied in order. */
  function ApplyFields(markup: seq<Element>, controls: seq<Control>, fields: seq<Member>, n: nat): (r: seq<Control>)
    requires |controls| == |markup| && n <= |fields| && AllDecodable(markup, fields)
    ensures |r| == |controls|
  {
    if n == 0 then controls
    else ApplyField(markup, ApplyFields(markup, controls, fields, n - 1), fields[n - 1].key, fields[n - 1].value)
  }

  // ---------------------------------------------------------------------
  // What a key may change

  /** Whether handling `key` may write an element named `name`. */
  predicate Touches(key: string, name: string) {
    || name == key
    || (HandlingOf(key) == MirroredQuad && name == key + "T")
    || (HandlingOf(key) == PortA && (name == "portApix" || name == "DmxInBcAddrA"))
    || (HandlingOf(key) == PortB && name == "portBpix")
  }

  /** A key writes only the elements named after it, its mirror, and the
      controls its visibility rule governs. */
  lemma FieldFrame(markup: seq<Element>, controls: seq<Control>, key: string, v: Value, j: nat)
    requires |controls| == |markup| && Decodable(markup, key)
    requires j < |markup| && !Touches(key, markup[j].name)
    ensures ApplyField(markup, controls, key, v)[j] == controls[j]
  {
  }

  /** Elements that no response key touches keep their state. */
  lemma {:induction false} FieldsFrame(markup: seq<Element>, controls: seq<Control>, fields: seq<Member>, n: nat, j: nat)
    requires |controls| == |markup| && n <= |fields| && AllDecodable(markup, fields)
    requires j < |markup| && forall i :: 0 <= i < n ==> !Touches(fields[i].key, markup[j].name)
    ensures ApplyFields(markup, controls, fields, n)[j] == controls[j]
  {
    if n > 0 {
      FieldsFrame(markup, controls, fields, n - 1, j);
      FieldFrame(markup, ApplyFields(markup, controls, fields, n - 1), fields[n - 1].key, fields[n - 1].value, j);
    }
  }

  /** Port A's mode 3 shows both its pixel controls (the first two named
      `portApix`) and mode 2 its broadcast-address control (the first named
      `DmxInBcAddrA`); any other value hides them. */
  lemma PortAVisibility(markup: seq<Element>, controls: seq<Control>, key: string, v: Value, j: nat)
    requires |controls| == |markup| && HandlingOf(key) == PortA && Decodable(markup, key) && j < |markup|
    ensures var r := ApplyField(markup, controls, key, v);
      && (markup[j].name == "portApix" && Rank(markup, j) < 2 ==> (r[j].shown <==> LooseEqualsNumber(v, 3)))
      && (markup[j].name == "DmxInBcAddrA" && Rank(markup, j) == 0 ==> (r[j].shown <==> LooseEqualsNumber(v, 2)))
  {
    assert key == "portAmode";
  }

  /** Port B's mode 3 shows both its pixel controls (the first two named
      `portBpix`); any other value hides them. */
  lemma PortBVisibility(markup: seq<Element>, controls: seq<Control>, key: string, v: Value, j: nat)
    requires |controls| == |markup| && HandlingOf(key) == PortB && Decodable(markup, key) && j < |markup|
    ensures var r := ApplyField(markup, controls, key, v);
      markup[j].name == "portBpix" && Rank(markup, j) < 2 ==> (r[j].shown <==> LooseEqualsNumber(v, 3))
  {
    assert key == "portBmode";
  }

  // ---------------------------------------------------------------------
  // Reading back what the request sent

  /** A text or checkbox input decoded from its own encoding is unchanged,
      and so is a number input, except that an empty one now reads `0`. */
  lemma InputRoundTrip(e: Element, c: Control)
    requires Encodes(e.kind)
    ensures Decode(e, c, EncodeInput(e, c))
         == if e.kind == NumberInput && c.value == "" then c.(value := "0") else c
  {
    if e.kind == NumberInput && c.value == "" {
      assert ToStr(Num(0)) == "0";
    }
  }

  /** A select decoded from its own selected value moves to the first option
      with that value: its own when the option values are distinct. */
  lemma SelectRoundTrip(e: Element, c: Control)
    requires e.kind == SelectList && SelectedValue(e, c).Some?
    ensures var r := Decode(e, c, SelectedValue(e, c).value);
      && r == c.(selectedIndex := r.selectedIndex)
      && 0 <= r.selectedIndex <= c.selectedIndex
      && e.options[r.selectedIndex] == e.options[c.selectedIndex]
    ensures (forall s, t :: 0 <= s < t < |e.options| ==> e.options[s] != e.options[t])
      ==> Decode(e, c, SelectedValue(e, c).value) == c
  {
    var v := SelectedValue(e, c).value;
    assert LooseEqualsString(e.options[c.selectedIndex], v);
    var m := FirstMatch(e.options, v, 0);
    assert m.Some?;
    assert m.value <= c.selectedIndex;
  }

  /** A four-part value read from four consecutive inputs of a tab writes the
      same values back, when those inputs are the first four elements of
      their name. */
  lemma QuadRoundTrip(markup: seq<Element>, controls: seq<Control>, ins: seq<nat>, i: nat, key: string)
    requires |controls| == |markup| && Positions(ins, |markup|) && i + 4 <= |ins|
    requires forall t :: i <= t < i + 4 ==> markup[ins[t]].name == key && Rank(markup, ins[t]) == t - i
    ensures WriteParts(markup, controls, key, List(InputValues(controls, ins, i, 4)), 4) == controls
  {
    var v := List(InputValues(controls, ins, i, 4));
    var r := WriteParts(markup, controls, key, v, 4);
    forall j | 0 <= j < |r| ensures r[j] == controls[j] {
      if markup[j].name == key && Rank(markup, j) < 4 {
        var z := Rank(markup, j);
        RankInjective(markup, j, ins[i + z]);
        assert ToStr(Elem(v, z)) == controls[j].value;
      }
    }
  }

  /** The mirror of a four-part value is its four parts joined by `" . "`. */
  lemma DottedQuad(p: string, q: string, s: string, t: string)
    ensures Dotted(List([Str(p), Str(q), Str(s), Str(t)])) == p + " . " + q + " . " + s + " . " + t
  {
    var v := List([Str(p), Str(q), Str(s), Str(t)]);
    assert MirrorUpTo(v, 1) == p;
    assert MirrorUpTo(v, 2) == p + " . " + q;
    assert MirrorUpTo(v, 3) == p + " . " + q + " . " + s;
  }
}
