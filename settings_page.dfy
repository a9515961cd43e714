/** The settings page controller (data/script.js): the current tab `cl`, the
    requested tab `num`, the error flag `err`, the tab and error panels, and
    the named controls, changed by `sendData`, `menuClick`, `handleAJAX`,
    `reboot` and the key handler. Requests and replies are parameters and
    results: the transport, `JSON.parse` and the timers are not modelled. */
module SettingsPage {
  import opened JsValues
  import opened Dom
  import opened FormSerialise
  import opened FormDecode

  // ---------------------------------------------------------------------
  // The states the write loops of `handleAJAX` pass through

  /** The mirror element after `z` parts: untouched before the first part,
      then the first `z` parts joined by `" . "`. */
  function MirrorAfter(markup: seq<Element>, cs: seq<Control>, name: string, v: Value, z: nat): (r: seq<Control>)
    requires |cs| == |markup|
    ensures |r| == |cs|
  {
    if z == 0 then cs else SetText(markup, cs, name, MirrorUpTo(v, z))
  }

  /** The elements named `key` of rank below `n` decoded from `v`. */
  function DecodeBelow(markup: seq<Element>, cs: seq<Control>, key: string, v: Value, n: nat): (r: seq<Control>)
    requires |cs| == |markup|
    ensures |r| == |cs|
  {
    seq(|cs|, j requires 0 <= j < |cs| =>
      if markup[j].name == key && Rank(markup, j) < n then Decode(markup[j], cs[j], v) else cs[j])
  }

  lemma PartStep(markup: seq<Element>, cs: seq<Control>, key: string, v: Value, z: nat, p: nat)
    requires |cs| == |markup| && p < |markup| && markup[p].name == key && Rank(markup, p) == z
    ensures var w := WriteParts(markup, cs, key, v, z);
      w[p := w[p].(value := ToStr(Elem(v, z)))] == WriteParts(markup, cs, key, v, z + 1)
  {
    var w, w' := WriteParts(markup, cs, key, v, z), WriteParts(markup, cs, key, v, z + 1);
    forall j | 0 <= j < |cs| ensures w[p := w[p].(value := ToStr(Elem(v, z)))][j] == w'[j] {
      if markup[j].name == key && Rank(markup, j) == z {
        RankInjective(markup, j, p);
      }
    }
  }

  lemma ShownStep(markup: seq<Element>, cs: seq<Control>, name: string, z: nat, on: bool, p: nat)
    requires |cs| == |markup| && p < |markup| && markup[p].name == name && Rank(markup, p) == z
    ensures var w := SetShown(markup, cs, name, z, on);
      w[p := w[p].(shown := on)] == SetShown(markup, cs, name, z + 1, on)
  {
    var w, w' := SetShown(markup, cs, name, z, on), SetShown(markup, cs, name, z + 1, on);
    forall j | 0 <= j < |cs| ensures w[p := w[p].(shown := on)][j] == w'[j] {
      if markup[j].name == name && Rank(markup, j) == z {
        RankInjective(markup, j, p);
      }
    }
  }

  lemma DecodeStep(markup: seq<Element>, cs: seq<Control>, key: string, v: Value, z: nat, p: nat)
    requires |cs| == |markup| && p < |markup| && markup[p].name == key && Rank(markup, p) == z
    ensures var w := DecodeBelow(markup, cs, key, v, z);
      w[p] == cs[p] && w[p := Decode(markup[p], cs[p], v)] == DecodeBelow(markup, cs, key, v, z + 1)
  {
    var w, w' := DecodeBelow(markup, cs, key, v, z), DecodeBelow(markup, cs, key, v, z + 1);
    forall j | 0 <= j < |cs| ensures w[p := Decode(markup[p], cs[p], v)][j] == w'[j] {
      if markup[j].name == key && Rank(markup, j) == z {
        RankInjective(markup, j, p);
      }
    }
  }

  lemma DecodeAll(markup: seq<Element>, cs: seq<Control>, key: string, v: Value)
    requires |cs| == |markup|
    ensures DecodeBelow(markup, cs, key, v, Count(markup, key)) == DecodeNamed(markup, cs, key, v)
  {
    forall j | 0 <= j < |cs| && markup[j].name == key ensures Rank(markup, j) < Count(markup, key) {
      RankBelowCount(markup, j);
    }
  }

  lemma MirrorValueStep(markup: seq<Element>, cs: seq<Control>, name: string, v: Value, z: nat, p: nat, x: string)
    requires |cs| == |markup| && p < |markup| && markup[p].name != name
    ensures var m := MirrorAfter(markup, cs, name, v, z);
      m[p := m[p].(value := x)] == MirrorAfter(markup, cs[p := cs[p].(value := x)], name, v, z)
  {
    var m, m' := MirrorAfter(markup, cs, name, v, z), MirrorAfter(markup, cs[p := cs[p].(value := x)], name, v, z);
    forall j | 0 <= j < |cs| ensures m[p := m[p].(value := x)][j] == m'[j] {
    }
  }

  lemma MirrorTextStep(markup: seq<Element>, cs: seq<Control>, name: string, v: Value, z: nat, b: nat)
    requires |cs| == |markup| && b < |markup| && markup[b].name == name && Rank(markup, b) == 0
    ensures var m := MirrorAfter(markup, cs, name, v, z);
      (0 < z ==> m[b].text == MirrorUpTo(v, z))
      && m[b := m[b].(text := MirrorUpTo(v, z + 1))] == MirrorAfter(markup, cs, name, v, z + 1)
  {
    var m, m' := MirrorAfter(markup, cs, name, v, z), MirrorAfter(markup, cs, name, v, z + 1);
    forall j | 0 <= j < |cs| ensures m[b := m[b].(text := MirrorUpTo(v, z + 1))][j] == m'[j] {
      if markup[j].name == name && Rank(markup, j) == 0 {
        RankInjective(markup, j, b);
      }
    }
  }

  /** The first option, from the start, whose value equals `v`: the option
      loop of `handleAJAX` (data/script.js:299-304). */
  method FindOption(options: seq<string>, v: Value) returns (found: Option<nat>)
    ensures found == FirstMatch(options, v, 0)
    ensures found.Some? ==> found.value < |options| && LooseEqualsString(options[found.value], v)
    ensures found.None? ==> forall t :: 0 <= t < |options| ==> !LooseEqualsString(options[t], v)
  {
    var y := 0;
    while y < |options|
      invariant y <= |options|
      invariant FirstMatch(options, v, 0) == FirstMatch(options, v, y)
    {
      if LooseEqualsString(options[y], v) {
        return Some(y);
      }
      y := y + 1;
    }
    return None;
  }

  /** The request posted by `menuClick(n)`. */
  function TabRequest(n: int): Object {
    map["page" := Num(n), "success" := Num(1)]
  }

  /** The reply `reboot` assumes when the body does not parse. */
  function RebootFallback(responseText: string): Object {
    map["success" := Num(0), "message" := Str("Unknown error: [" + responseText + "]")]
  }

  class Page {
    /** The named controls' markup, which the controller never changes. */
    const markup: seq<Element>
    /** The state of each named control, position by position. */
    var controls: seq<Control>
    /** For each tab `o[t]`, whether its class is `show`. */
    var sections: seq<bool>
    var cl: nat
    var num: nat
    var err: bool
    /** The error panel's class is `show`, and the text of its first P. */
    var errorShown: bool
    var errorText: string
    /** The reboot panel reports that the reboot failed. */
    var rebootFailed: bool
    /** Page reloads scheduled. */
    var reloads: nat

    ghost predicate Valid()
      reads this
    {
      |controls| == |markup| && cl < |sections| && num < |sections|
    }

    /** Every tab other than the current one is hidden. */
    ghost predicate OnlyCurrentShown()
      reads this
    {
      forall t :: 0 <= t < |sections| && t != cl ==> !sections[t]
    }

    /** The page as loaded, with the globals at their initial values. */
    constructor (markup: seq<Element>, controls: seq<Control>, sections: seq<bool>, errorText: string)
      requires |controls| == |markup| && 0 < |sections|
      ensures Valid()
      ensures this.markup == markup && this.controls == controls && this.sections == sections
      ensures cl == 0 && num == 0 && !err && !errorShown && this.errorText == errorText
      ensures !rebootFailed && reloads == 0
    {
      this.markup := markup;
      this.controls := controls;
      this.sections := sections;
      cl, num, err := 0, 0, false;
      errorShown := false;
      this.errorText := errorText;
      rebootFailed, reloads := false, 0;
    }

    // -------------------------------------------------------------------
    // sendData

    /** The request `sendData` posts for the current tab, or `None` when it
      throws before posting. */
    method SendData() returns (request: Option<Object>)
      requires Valid()
      ensures request == Serialise(markup, controls, cl, num)
    {
      var d := ReadInputs();
      if d.None? {
        return None;
      }
      request := ReadSelects(d.value);
      if request.Some? {
        request := Some(request.value["success" := Num(1)]);
      }
    }

    /** The input loop of `sendData`: the first input of each name, a
      composite anchor with the three inputs after it. */
    method ReadInputs() returns (request: Option<Object>)
      requires Valid()
      ensures request == WalkInputs(markup, controls, Select(markup, InputsIn(cl)), 0, Preset(num))
    {
      var ins := Select(markup, InputsIn(cl));
      var d := Preset(num);
      var i := 0;
      while i < |ins|
        invariant i <= |ins|
        invariant WalkInputs(markup, controls, ins, 0, Preset(num)) == WalkInputs(markup, controls, ins, i, d)
      {
        var k, kind := markup[ins[i]].name, markup[ins[i]].kind;
        var v, checked := controls[ins[i]].value, controls[ins[i]].checked;
        var anchor := i;
        i := i + 1;
        if k in d {
          continue;
        }
        if k in CompositeNames {
          var c;
          c, i := ReadComposite(ins, anchor);
          if c.None? {
            return None;
          }
          d := d[k := List(c.value)];
          continue;
        }
        if kind == TextInput {
          d := d[k := Str(v)];
        }
        if kind == NumberInput {
          var w := if v == "" then Num(0) else Str(v);
          d := d[k := w];
        }
        if kind == CheckboxInput {
          if checked {
            d := d[k := Num(1)];
          } else {
            d := d[k := Num(0)];
          }
        }
      }
      return Some(d);
    }

    /** The composite loop of `sendData`: the anchor's value and the values
      of the three inputs after it, advancing the shared index past them;
      `None` when the list ends first. */
    method ReadComposite(ins: seq<nat>, anchor: nat) returns (c: Option<seq<Value>>, next: nat)
      requires Valid() && Positions(ins, |markup|) && anchor < |ins|
      ensures anchor + 4 <= |ins| ==> c == Some(InputValues(controls, ins, anchor, 4)) && next == anchor + 4
      ensures |ins| < anchor + 4 ==> c.None?
    {
      var values := [Str(controls[ins[anchor]].value)];
      var i := anchor + 1;
      var z := 1;
      while z < 4
        invariant 1 <= z <= 4 && i == anchor + z <= |ins|
        invariant values == InputValues(controls, ins, anchor, z)
      {
        if i >= |ins| {
          return None, i;
        }
        values := values + [Str(controls[ins[i]].value)];
        i := i + 1;
        z := z + 1;
      }
      return Some(values), i;
    }

    /** The select loop of `sendData`: each select's selected option value,
      the last select of a name winning. */
    method ReadSelects(d0: Object) returns (request: Option<Object>)
      requires Valid()
      ensures request == WalkSelects(markup, controls, Select(markup, SelectsIn(cl)), 0, d0)
    {
      var sels := Select(markup, SelectsIn(cl));
      var d := d0;
      var j := 0;
      while j < |sels|
        invariant j <= |sels|
        invariant WalkSelects(markup, controls, sels, 0, d0) == WalkSelects(markup, controls, sels, j, d)
      {
        var e, c := markup[sels[j]], controls[sels[j]];
        if !(0 <= c.selectedIndex < |e.options|) {
          return None;
        }
        d := d[e.name := Str(e.options[c.selectedIndex])];
        j := j + 1;
      }
      return Some(d);
    }

    // -------------------------------------------------------------------
    // menuClick

    /** Switching tabs: ignored while the error flag is set; otherwise the
      requested tab is remembered and its data requested. */
    method MenuClick(n: nat) returns (request: Option<Object>)
      requires Valid() && n < |sections|
      modifies this`num
      ensures Valid()
      ensures old(err) ==> num == old(num) && request == None
      ensures !old(err) ==> num == n && request == Some(TabRequest(n))
    {
      if err {
        return None;
      }
      num := n;
      request := Some(TabRequest(num));
    }

    // -------------------------------------------------------------------
    // handleAJAX

    /** A completed reply with HTTP status `status` and, for status 200, the
      parsed body `fields`. A failure sets the error flag, hides the current
      tab and shows the error panel (with the reply's message when the body
      has a `success` member other than 1); a success hides the current tab,
      shows tab `num`, makes it current and writes every member onto the
      controls. */
    method HandleResponse(status: int, fields: seq<Member>)
      requires Valid() && DistinctKeys(fields)
      requires status == 200 && Succeeded(fields) ==> AllDecodable(markup, fields)
      modifies this`controls, this`sections, this`cl, this`err, this`errorShown, this`errorText
      ensures Valid() && num == old(num)
      ensures !(status == 200 && Succeeded(fields)) ==>
        && err && errorShown && cl == old(cl)
        && sections == old(sections)[old(cl) := false]
        && controls == old(controls)
        && errorText == (if status == 200 && Has(fields, "success") then ToStr(Lookup(fields, "message")) else old(errorText))
      ensures status == 200 && Succeeded(fields) ==>
        && err == old(err) && errorShown == old(errorShown) && errorText == old(errorText)
        && sections == old(sections)[old(cl) := false][num := true]
        && cl == num
        && controls == ApplyFields(markup, old(controls), fields, |fields|)
      ensures old(OnlyCurrentShown()) ==> OnlyCurrentShown()
    {
      if status == 200 {
        if !Has(fields, "success") {
          err := true;
          sections := sections[cl := false];
          errorShown := true;
          return;
        }
        if !LooseEqualsNumber(Lookup(fields, "success"), 1) {
          err := true;
          sections := sections[cl := false];
          errorText := ToStr(Lookup(fields, "message"));
          errorShown := true;
          return;
        }
        sections := sections[cl := false];
        sections := sections[num := true];
        cl := num;
        var i := 0;
        while i < |fields|
          modifies this`controls
          invariant 0 <= i <= |fields| && |controls| == |markup|
          invariant controls == ApplyFields(markup, old(controls), fields, i)
        {
          ApplyMember(fields[i].key, fields[i].value);
          i := i + 1;
        }
      } else {
        err := true;
        sections := sections[cl := false];
        errorShown := true;
      }
    }

    /** One response member written onto the controls. */
    method ApplyMember(key: string, v: Value)
      requires |controls| == |markup| && Decodable(markup, key)
      modifies this`controls
      ensures controls == ApplyField(markup, old(controls), key, v)
    {
      if key == "ipAddress" || key == "subAddress" {
        WriteMirroredQuad(key, v);
      } else if key == "bcAddress" {
        WriteMirror(key, v);
      } else if key == "gwAddress" || key == "dmxInBroadcast" || key == "portAuni"
             || key == "portBuni" || key == "portAsACNuni" || key == "portBsACNuni" {
        WriteQuad(key, v);
      } else {
        if key == "portAmode" {
          PortARuleApply(v);
        } else if key == "portBmode" {
          PortBRuleApply(v);
        }
        WriteNamed(key, v);
      }
    }

    /** The four parts into the first four elements named `key`, and their
      dotted join into the first element named `key + "T"`. */
    method WriteMirroredQuad(key: string, v: Value)
      requires |controls| == |markup| && 4 <= Count(markup, key) && 1 <= Count(markup, key + "T")
      requires key != key + "T"
      modifies this`controls
      ensures controls == SetText(markup, WriteParts(markup, old(controls), key, v, 4), key + "T", Dotted(v))
    {
      var a, b := Named(markup, key), Named(markup, key + "T");
      NamedRanks(markup, key);
      NamedRanks(markup, key + "T");
      var b0 := b[0];
      ghost var c0 := controls;
      var z := 0;
      while z < 4
        invariant 0 <= z <= 4 && |controls| == |markup|
        invariant controls == MirrorAfter(markup, WriteParts(markup, c0, key, v, z), key + "T", v, z)
      {
        ghost var w, w' := WriteParts(markup, c0, key, v, z), WriteParts(markup, c0, key, v, z + 1);
        var p := a[z];
        controls := controls[p := controls[p].(value := ToStr(Elem(v, z)))];
        assert controls == MirrorAfter(markup, w', key + "T", v, z) by {
          MirrorValueStep(markup, w, key + "T", v, z, p, ToStr(Elem(v, z)));
          PartStep(markup, c0, key, v, z, p);
        }
        AppendPart(w', key + "T", b0, v, z);
        z := z + 1;
      }
    }

    /** The dotted join of the four parts into the first element named
      `key`. */
    method WriteMirror(key: string, v: Value)
      requires |controls| == |markup| && 1 <= Count(markup, key)
      modifies this`controls
      ensures controls == SetText(markup, old(controls), key, Dotted(v))
    {
      var a := Named(markup, key);
      NamedRanks(markup, key);
      var b0 := a[0];
      ghost var c0 := controls;
      var z := 0;
      while z < 4
        invariant 0 <= z <= 4 && |controls| == |markup|
        invariant controls == MirrorAfter(markup, c0, key, v, z)
      {
        AppendPart(c0, key, b0, v, z);
        z := z + 1;
      }
    }

    /** One round of a mirror loop: part `z`, after a separator unless it
      is the first, appended to the text of element `b`. */
    method AppendPart(ghost base: seq<Control>, name: string, b: nat, v: Value, z: nat)
      requires |base| == |markup| && b < |markup| && markup[b].name == name && Rank(markup, b) == 0
      requires controls == MirrorAfter(markup, base, name, v, z)
      modifies this`controls
      ensures controls == MirrorAfter(markup, base, name, v, z + 1)
    {
      var part := ToStr(Elem(v, z));
      ghost var m := controls;
      MirrorTextStep(markup, base, name, v, z, b);
      if z == 0 {
        controls := controls[b := controls[b].(text := "")];
      } else {
        controls := controls[b := controls[b].(text := controls[b].text + " . ")];
      }
      controls := controls[b := controls[b].(text := controls[b].text + part)];
      assert controls == m[b := m[b].(text := MirrorUpTo(v, z + 1))];
    }

    /** The four parts into the first four elements named `key`. */
    method WriteQuad(key: string, v: Value)
      requires |controls| == |markup| && 4 <= Count(markup, key)
      modifies this`controls
      ensures controls == WriteParts(markup, old(controls), key, v, 4)
    {
      var a := Named(markup, key);
      NamedRanks(markup, key);
      ghost var c0 := controls;
      var z := 0;
      while z < 4
        invariant 0 <= z <= 4 && controls == WriteParts(markup, c0, key, v, z)
      {
        PartStep(markup, c0, key, v, z, a[z]);
        controls := controls[a[z] := controls[a[z]].(value := ToStr(Elem(v, z)))];
        z := z + 1;
      }
    }

    /** `style.display` of element `p`, the one of rank `z` among those
      named `name`: `''` when `on`, `'none'` otherwise. */
    method SetDisplay(ghost base: seq<Control>, name: string, p: nat, z: nat, on: bool)
      requires |base| == |markup| && p < |markup| && markup[p].name == name && Rank(markup, p) == z
      requires controls == SetShown(markup, base, name, z, on)
      modifies this`controls
      ensures controls == SetShown(markup, base, name, z + 1, on)
    {
      ShownStep(markup, base, name, z, on, p);
      if on {
        controls := controls[p := controls[p].(shown := true)];
      } else {
        controls := controls[p := controls[p].(shown := false)];
      }
    }

    /** The two pixel-count controls named `name`, both shown or both
      hidden. */
    method ShowPixels(name: string, on: bool)
      requires |controls| == |markup| && 2 <= Count(markup, name)
      modifies this`controls
      ensures controls == SetShown(markup, old(controls), name, 2, on)
    {
      var b := Named(markup, name);
      NamedRanks(markup, name);
      ghost var c0 := controls;
      assert controls == SetShown(markup, c0, name, 0, on);
      SetDisplay(c0, name, b[0], 0, on);
      SetDisplay(c0, name, b[1], 1, on);
    }

    /** Port A's mode: both `portApix` controls shown for 3, the
      `DmxInBcAddrA` control shown for 2, hidden otherwise. */
    method PortARuleApply(v: Value)
      requires |controls| == |markup| && 2 <= Count(markup, "portApix") && 1 <= Count(markup, "DmxInBcAddrA")
      modifies this`controls
      ensures controls == PortARule(markup, old(controls), v)
    {
      ShowPixels("portApix", LooseEqualsNumber(v, 3));
      var c := Named(markup, "DmxInBcAddrA");
      NamedRanks(markup, "DmxInBcAddrA");
      ghost var c1 := controls;
      var bc := LooseEqualsNumber(v, 2);
      assert controls == SetShown(markup, c1, "DmxInBcAddrA", 0, bc);
      SetDisplay(c1, "DmxInBcAddrA", c[0], 0, bc);
    }

    /** Port B's mode: both `portBpix` controls shown for 3, hidden
      otherwise. */
    method PortBRuleApply(v: Value)
      requires |controls| == |markup| && 2 <= Count(markup, "portBpix")
      modifies this`controls
      ensures controls == PortBRule(markup, old(controls), v)
    {
      ShowPixels("portBpix", LooseEqualsNumber(v, 3));
    }

    /** One element of the generic loop, by its node name and type. */
    method DecodeElement(p: nat, v: Value)
      requires |controls| == |markup| && p < |markup|
      modifies this`controls
      ensures controls == old(controls)[p := Decode(markup[p], old(controls)[p], v)]
    {
      var e := markup[p];
      if e.kind == TextBlock {
        controls := controls[p := controls[p].(text := ToStr(v))];
      } else if e.kind.IsInput() {
        if e.kind == CheckboxInput {
          if LooseEqualsNumber(v, 1) {
            controls := controls[p := controls[p].(checked := true)];
          } else {
            controls := controls[p := controls[p].(checked := false)];
          }
        } else {
          controls := controls[p := controls[p].(value := ToStr(v))];
        }
      } else if e.kind == SelectList {
        var found := FindOption(e.options, v);
        if found.Some? {
          controls := controls[p := controls[p].(selectedIndex := found.value)];
        }
      }
    }

    /** Every element named `key`, by its kind. */
    method WriteNamed(key: string, v: Value)
      requires |controls| == |markup|
      modifies this`controls
      ensures controls == DecodeNamed(markup, old(controls), key, v)
    {
      var a := Named(markup, key);
      NamedRanks(markup, key);
      ghost var c0 := controls;
      var z := 0;
      while z < |a|
        invariant 0 <= z <= |a| && |controls| == |markup|
        invariant controls == DecodeBelow(markup, c0, key, v, z)
      {
        var p := a[z];
        DecodeStep(markup, c0, key, v, z, p);
        DecodeElement(p, v);
        z := z + 1;
      }
      DecodeAll(markup, c0, key, v);
    }

    // -------------------------------------------------------------------
    // reboot

    /** The reboot button: ignored while the error flag is set or when the
      user does not confirm; otherwise the current tab is hidden, tab 0
      shows the reboot notice and the reboot is requested. */
    method Reboot(confirmed: bool) returns (requested: bool)
      requires Valid()
      modifies this`sections, this`err, this`rebootFailed
      ensures Valid() && err == old(err)
      ensures requested <==> !old(err) && confirmed
      ensures sections == if requested then old(sections)[cl := false][0 := true] else old(sections)
      ensures rebootFailed == (old(rebootFailed) && !requested)
    {
      if err {
        return false;
      }
      if !confirmed {
        return false;
      }
      sections := sections[cl := false];
      sections := sections[0 := true];
      rebootFailed := false;
      err := false;
      return true;
    }

    /** The reboot reply: the notice turns to failure unless the reply parses
      and its `success == 1`; a reload is scheduled either way. */
    method RebootReply(reply: Option<Object>, responseText: string)
      modifies this`rebootFailed, this`reloads
      ensures reloads == old(reloads) + 1
      ensures rebootFailed == (old(rebootFailed)
        || !LooseEqualsNumber(Get(Parsed(reply, RebootFallback(responseText)), "success"), 1))
    {
      var r := Parsed(reply, RebootFallback(responseText));
      if !LooseEqualsNumber(Get(r, "success"), 1) {
        rebootFailed := true;
      }
      reloads := reloads + 1;
    }

    // -------------------------------------------------------------------
    // document.onkeydown

    /** A key press: Enter sends the current tab's data, but only on tabs 2
      to 6. */
    method KeyDown(keyCode: int) returns (sent: bool, request: Option<Object>)
      requires Valid()
      ensures sent <==> 2 <= cl <= 6 && keyCode == 13
      ensures request == if sent then Serialise(markup, controls, cl, num) else None
    {
      if cl < 2 || cl > 6 {
        return false, None;
      }
      if keyCode == 13 {
        request := SendData();
        return true, request;
      }
      return false, None;
    }
  }
}
