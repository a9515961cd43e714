/** Building the request body of `sendData` (data/script.js:142-171): the
    active tab's inputs in document order, then its selects, then the
    `success` marker. */
module FormSerialise {
  import opened JsValues
  import opened Dom

  /** The names whose anchor input is followed by three more inputs that
      together make one four-part value (an address or a port group). */
  const CompositeNames: set<string> :=
    {"ipAddress", "subAddress", "gwAddress", "portAuni", "portBuni",
     "portAsACNuni", "portBsACNuni", "dmxInBroadcast"}

  /** Every position of a lookup result lies inside the document. */
  predicate Positions(ins: seq<nat>, n: nat) {
    forall t :: 0 <= t < |ins| ==> ins[t] < n
  }

  /** The input kinds that contribute a key of their own. */
  predicate Encodes(k: Kind) {
    k == TextInput || k == NumberInput || k == CheckboxInput
  }

  /** The value one plain input contributes. */
  function EncodeInput(e: Element, c: Control): Value
    requires Encodes(e.kind)
  {
    if e.kind == TextInput then Str(c.value)
    else if e.kind == NumberInput then (if c.value == "" then Num(0) else Str(c.value))
    else if c.checked then Num(1) else Num(0)
  }

  /** The `value`s of `n` inputs of the list, starting at position `from`. */
  function InputValues(controls: seq<Control>, ins: seq<nat>, from: nat, n: nat): (r: seq<Value>)
    requires from + n <= |ins| && Positions(ins, |controls|)
    ensures |r| == n
    ensures forall t :: 0 <= t < n ==> r[t] == Str(controls[ins[from + t]].value)
  {
    seq(n, t requires 0 <= t < n => Str(controls[ins[from + t]].value))
  }

  /** The input loop from position `i` on, with `d` built so far; `None`
      when a composite anchor has fewer than three inputs after it (reading
      `.value` of the missing input throws). */
  function WalkInputs(markup: seq<Element>, controls: seq<Control>, ins: seq<nat>, i: nat, d: Object): Option<Object>
    requires |controls| == |markup| && Positions(ins, |markup|) && i <= |ins|
    decreases |ins| - i
  {
    if i == |ins| then Some(d)
    else
      var e := markup[ins[i]];
      if e.name in d then WalkInputs(markup, controls, ins, i + 1, d)
      else if e.name in CompositeNames then
        if i + 4 <= |ins| then WalkInputs(markup, controls, ins, i + 4, d[e.name := List(InputValues(controls, ins, i, 4))])
        else None
      else if Encodes(e.kind) then WalkInputs(markup, controls, ins, i + 1, d[e.name := EncodeInput(e, controls[ins[i]])])
      else WalkInputs(markup, controls, ins, i + 1, d)
  }

  /** `e.options[e.selectedIndex].value`, or `None` when no option is
      selected (reading a property of the missing option throws). */
  function SelectedValue(e: Element, c: Control): Option<Value> {
    if 0 <= c.selectedIndex < |e.options| then Some(Str(e.options[c.selectedIndex])) else None
  }

  /** The select loop from position `i` on. */
  function WalkSelects(markup: seq<Element>, controls: seq<Control>, sels: seq<nat>, i: nat, d: Object): Option<Object>
    requires |controls| == |markup| && Positions(sels, |markup|) && i <= |sels|
    decreases |sels| - i
  {
    if i == |sels| then Some(d)
    else
      match SelectedValue(markup[sels[i]], controls[sels[i]])
      case None => None
      case Some(v) => WalkSelects(markup, controls, sels, i + 1, d[markup[sels[i]].name := v])
  }

  /** The initial request: the page selector. */
  function Preset(num: int): Object {
    map["page" := Num(num)]
  }

  /** The request body `sendData` posts for tab `section`, or `None` when it
      throws before posting. */
  function Serialise(markup: seq<Element>, controls: seq<Control>, section: int, num: int): Option<Object>
    requires |controls| == |markup|
  {
    match WalkInputs(markup, controls, Select(markup, InputsIn(section)), 0, Preset(num))
    case None => None
    case Some(d) =>
      match WalkSelects(markup, controls, Select(markup, SelectsIn(section)), 0, d)
      case None => None
      case Some(d') => Some(d'["success" := Num(1)])
  }

  // ---------------------------------------------------------------------
  // The input loop

  /** First occurrence wins: a key already in the request keeps its value
      whatever inputs follow. */
  lemma {:induction false} WalkKeepsKey(markup: seq<Element>, controls: seq<Control>, ins: seq<nat>, i: nat, d: Object, k: string)
    requires |controls| == |markup| && Positions(ins, |markup|) && i <= |ins|
    requires k in d && WalkInputs(markup, controls, ins, i, d).Some?
    ensures k in WalkInputs(markup, controls, ins, i, d).value
    ensures WalkInputs(markup, controls, ins, i, d).value[k] == d[k]
    decreases |ins| - i
  {
    if i < |ins| {
      var e := markup[ins[i]];
      if e.name in d {
        WalkKeepsKey(markup, controls, ins, i + 1, d, k);
      } else if e.name in CompositeNames {
        WalkKeepsKey(markup, controls, ins, i + 4, d[e.name := List(InputValues(controls, ins, i, 4))], k);
      } else if Encodes(e.kind) {
        WalkKeepsKey(markup, controls, ins, i + 1, d[e.name := EncodeInput(e, controls[ins[i]])], k);
      } else {
        WalkKeepsKey(markup, controls, ins, i + 1, d, k);
      }
    }
  }

  /** The entry an input adds when its name is new: a composite anchor and
      the next three inputs make a four-element list of their values; a
      text, number or checkbox input adds its own encoding. */
  lemma WalkVisit(markup: seq<Element>, controls: seq<Control>, ins: seq<nat>, i: nat, d: Object)
    requires |controls| == |markup| && Positions(ins, |markup|) && i < |ins|
    requires markup[ins[i]].name !in d && WalkInputs(markup, controls, ins, i, d).Some?
    ensures var k, r := markup[ins[i]].name, WalkInputs(markup, controls, ins, i, d).value;
      && (k in CompositeNames ==>
            i + 4 <= |ins| && k in r
            && r[k] == List([Str(controls[ins[i]].value), Str(controls[ins[i + 1]].value),
                             Str(controls[ins[i + 2]].value), Str(controls[ins[i + 3]].value)]))
      && (k !in CompositeNames && Encodes(markup[ins[i]].kind) ==>
            k in r && r[k] == EncodeInput(markup[ins[i]], controls[ins[i]]))
  {
    var e := markup[ins[i]];
    if e.name in CompositeNames {
      WalkKeepsKey(markup, controls, ins, i + 4, d[e.name := List(InputValues(controls, ins, i, 4))], e.name);
    } else if Encodes(e.kind) {
      WalkKeepsKey(markup, controls, ins, i + 1, d[e.name := EncodeInput(e, controls[ins[i]])], e.name);
    }
  }

  /** A key the input loop adds is the name of a later input that is a
      composite anchor or a text, number or checkbox input: any other input
      contributes nothing. */
  lemma {:induction false} WalkOrigin(markup: seq<Element>, controls: seq<Control>, ins: seq<nat>, i: nat, d: Object, k: string)
    requires |controls| == |markup| && Positions(ins, |markup|) && i <= |ins|
    requires WalkInputs(markup, controls, ins, i, d).Some?
    requires k in WalkInputs(markup, controls, ins, i, d).value && k !in d
    ensures exists j :: i <= j < |ins| && markup[ins[j]].name == k
                        && (k in CompositeNames || Encodes(markup[ins[j]].kind))
    decreases |ins| - i
  {
    var e := markup[ins[i]];
    if e.name in d {
      WalkOrigin(markup, controls, ins, i + 1, d, k);
    } else if e.name in CompositeNames {
      if e.name != k {
        WalkOrigin(markup, controls, ins, i + 4, d[e.name := List(InputValues(controls, ins, i, 4))], k);
      }
    } else if Encodes(e.kind) {
      if e.name != k {
        WalkOrigin(markup, controls, ins, i + 1, d[e.name := EncodeInput(e, controls[ins[i]])], k);
      }
    } else {
      WalkOrigin(markup, controls, ins, i + 1, d, k);
    }
  }

  /** The input loop throws only at a composite anchor among the last three
      inputs of the tab. */
  lemma {:induction false} WalkFails(markup: seq<Element>, controls: seq<Control>, ins: seq<nat>, i: nat, d: Object)
    requires |controls| == |markup| && Positions(ins, |markup|) && i <= |ins|
    requires WalkInputs(markup, controls, ins, i, d).None?
    ensures exists j :: i <= j < |ins| && |ins| < j + 4 && markup[ins[j]].name in CompositeNames
    decreases |ins| - i
  {
    var e := markup[ins[i]];
    if e.name in d {
      WalkFails(markup, controls, ins, i + 1, d);
    } else if e.name in CompositeNames {
      if i + 4 <= |ins| {
        WalkFails(markup, controls, ins, i + 4, d[e.name := List(InputValues(controls, ins, i, 4))]);
      }
    } else if Encodes(e.kind) {
      WalkFails(markup, controls, ins, i + 1, d[e.name := EncodeInput(e, controls[ins[i]])]);
    } else {
      WalkFails(markup, controls, ins, i + 1, d);
    }
  }

  // ---------------------------------------------------------------------
  // The select loop

  /** A key that names none of the remaining selects is left as it was. */
  lemma {:induction false} SelectsFrame(markup: seq<Element>, controls: seq<Control>, sels: seq<nat>, i: nat, d: Object, k: string)
    requires |controls| == |markup| && Positions(sels, |markup|) && i <= |sels|
    requires WalkSelects(markup, controls, sels, i, d).Some?
    requires forall j :: i <= j < |sels| ==> markup[sels[j]].name != k
    ensures var r := WalkSelects(markup, controls, sels, i, d).value;
      (k in r <==> k in d) && (k in d ==> r[k] == d[k])
    decreases |sels| - i
  {
    if i < |sels| {
      var v := SelectedValue(markup[sels[i]], controls[sels[i]]).value;
      SelectsFrame(markup, controls, sels, i + 1, d[markup[sels[i]].name := v], k);
    }
  }

  /** The select loop only adds or overwrites keys. */
  lemma {:induction false} SelectsGrow(markup: seq<Element>, controls: seq<Control>, sels: seq<nat>, i: nat, d: Object)
    requires |controls| == |markup| && Positions(sels, |markup|) && i <= |sels|
    requires WalkSelects(markup, controls, sels, i, d).Some?
    ensures d.Keys <= WalkSelects(markup, controls, sels, i, d).value.Keys
    decreases |sels| - i
  {
    if i < |sels| {
      var v := SelectedValue(markup[sels[i]], controls[sels[i]]).value;
      SelectsGrow(markup, controls, sels, i + 1, d[markup[sels[i]].name := v]);
    }
  }

  /** Selects are not de-duplicated: the last select of a name decides its
      entry. */
  lemma {:induction false} SelectsLastWins(markup: seq<Element>, controls: seq<Control>, sels: seq<nat>, i: nat, d: Object, j: nat)
    requires |controls| == |markup| && Positions(sels, |markup|) && i <= j < |sels|
    requires WalkSelects(markup, controls, sels, i, d).Some?
    requires forall t :: j < t < |sels| ==> markup[sels[t]].name != markup[sels[j]].name
    ensures var r, k := WalkSelects(markup, controls, sels, i, d).value, markup[sels[j]].name;
      k in r && Some(r[k]) == SelectedValue(markup[sels[j]], controls[sels[j]])
    decreases |sels| - i
  {
    var v := SelectedValue(markup[sels[i]], controls[sels[i]]).value;
    if i < j {
      SelectsLastWins(markup, controls, sels, i + 1, d[markup[sels[i]].name := v], j);
    } else {
      SelectsFrame(markup, controls, sels, i + 1, d[markup[sels[i]].name := v], markup[sels[j]].name);
    }
  }

  /** The select loop throws exactly when one of the remaining selects has
      no selected option. */
  lemma {:induction false} SelectsFail(markup: seq<Element>, controls: seq<Control>, sels: seq<nat>, i: nat, d: Object)
    requires |controls| == |markup| && Positions(sels, |markup|) && i <= |sels|
    ensures WalkSelects(markup, controls, sels, i, d).None?
        <==> exists j :: i <= j < |sels| && SelectedValue(markup[sels[j]], controls[sels[j]]).None?
    decreases |sels| - i
  {
    if i < |sels| {
      match SelectedValue(markup[sels[i]], controls[sels[i]])
      case None =>
      case Some(v) =>
        SelectsFail(markup, controls, sels, i + 1, d[markup[sels[i]].name := v]);
    }
  }

  // ---------------------------------------------------------------------
  // The whole request

  /** The posted request always carries `success: 1`, and `page: num` unless
      a select of the tab is itself named `page`: the preset key is skipped
      by the input loop, while the select loop overwrites. */
  lemma RequestStamps(markup: seq<Element>, controls: seq<Control>, section: int, num: int)
    requires |controls| == |markup| && Serialise(markup, controls, section, num).Some?
    ensures var d := Serialise(markup, controls, section, num).value;
      && "success" in d && d["success"] == Num(1) && "page" in d
      && ((forall j :: 0 <= j < |markup| && Matches(markup[j], SelectsIn(section)) ==> markup[j].name != "page")
            ==> d["page"] == Num(num))
  {
    var ins, sels := Select(markup, InputsIn(section)), Select(markup, SelectsIn(section));
    var d := WalkInputs(markup, controls, ins, 0, Preset(num)).value;
    var r := WalkSelects(markup, controls, sels, 0, d).value;
    assert Serialise(markup, controls, section, num).value == r["success" := Num(1)];
    WalkKeepsKey(markup, controls, ins, 0, Preset(num), "page");
    SelectsGrow(markup, controls, sels, 0, d);
    if forall j :: 0 <= j < |markup| && Matches(markup[j], SelectsIn(section)) ==> markup[j].name != "page" {
      SelectsFrame(markup, controls, sels, 0, d, "page");
      assert r["page"] == Num(num);
    }
    assert "page" != "success";
  }
}
