/** The part of the settings page's document the controller touches: the
    named form elements inside the tabs, each with its static markup and its
    mutable state, and the three lookups the controller performs on them
    (`getElementsByName`, and `getElementsByTagName('INPUT')` /
    `getElementsByTagName('SELECT')` inside one tab). */
module Dom {

  /** What kind of element a named control is: an INPUT by its `type`, a
      SELECT, a P or DIV (whose text is its `innerHTML`), or anything else. */
  datatype Kind =
    | TextInput
    | NumberInput
    | CheckboxInput
    | OtherInput
    | SelectList
    | TextBlock
    | OtherElement
  {
    predicate IsInput() {
      this == TextInput || this == NumberInput || this == CheckboxInput || this == OtherInput
    }
  }

  /** The markup of one element, which the controller never changes: its
      `name` attribute, its kind, the tab it sits in (`-1` when it is in
      none) and, for a SELECT, the values of its options in order. */
  datatype Element = Element(name: string, kind: Kind, section: int, options: seq<string>)

  /** The state of one element the controller reads and writes: an input's
      `value`, a checkbox's `checked`, a select's `selectedIndex`, a text
      element's `innerHTML`, and whether its `style.display` lets it show. */
  datatype Control = Control(value: string, checked: bool, selectedIndex: int, text: string, shown: bool)

  /** A document lookup. */
  datatype Query =
    | ByName(name: string)       // document.getElementsByName(name)
    | InputsIn(section: int)     // o[section].getElementsByTagName('INPUT')
    | SelectsIn(section: int)    // o[section].getElementsByTagName('SELECT')

  predicate Matches(e: Element, q: Query) {
    match q
    case ByName(n) => e.name == n
    case InputsIn(t) => e.section == t && e.kind.IsInput()
    case SelectsIn(t) => e.section == t && e.kind == SelectList
  }

  /** The positions (in document order) among the first `k` elements that a
      lookup returns. */
  function SelectUpTo(markup: seq<Element>, q: Query, k: nat): (r: seq<nat>)
    requires k <= |markup|
    ensures forall t :: 0 <= t < |r| ==> r[t] < k && Matches(markup[r[t]], q)
    ensures forall j :: 0 <= j < k && Matches(markup[j], q) ==> j in r
    ensures forall s, t :: 0 <= s < t < |r| ==> r[s] < r[t]
    decreases k
  {
    if k == 0 then []
    else SelectUpTo(markup, q, k - 1) + (if Matches(markup[k - 1], q) then [k - 1] else [])
  }

  /** The live list a lookup returns: every matching element, each once, in
      document order. */
  function Select(markup: seq<Element>, q: Query): (r: seq<nat>)
    ensures forall t :: 0 <= t < |r| ==> r[t] < |markup| && Matches(markup[r[t]], q)
    ensures forall j :: 0 <= j < |markup| && Matches(markup[j], q) ==> j in r
    ensures forall s, t :: 0 <= s < t < |r| ==> r[s] < r[t]
  {
    SelectUpTo(markup, q, |markup|)
  }

  /** `document.getElementsByName(name)`. */
  function Named(markup: seq<Element>, name: string): (r: seq<nat>)
    ensures forall t :: 0 <= t < |r| ==> r[t] < |markup| && markup[r[t]].name == name
  {
    Select(markup, ByName(name))
  }

  /** How many of the first `k` elements are named `name`. */
  function CountUpTo(markup: seq<Element>, name: string, k: nat): nat
    requires k <= |markup|
  {
    if k == 0 then 0
    else CountUpTo(markup, name, k - 1) + (if markup[k - 1].name == name then 1 else 0)
  }

  /** How many elements are named `name`. */
  function Count(markup: seq<Element>, name: string): nat {
    CountUpTo(markup, name, |markup|)
  }

  /** The place of element `j` among the elements of its name: `a[Rank(j)]`
      is element `j` when `a = getElementsByName(name)`. */
  function Rank(markup: seq<Element>, j: nat): nat
    requires j < |markup|
  {
    CountUpTo(markup, markup[j].name, j)
  }

  lemma {:induction false} CountGrows(markup: seq<Element>, name: string, k: nat, l: nat)
    requires k <= l <= |markup|
    ensures CountUpTo(markup, name, k) <= CountUpTo(markup, name, l)
    decreases l - k
  {
    if k < l {
      CountGrows(markup, name, k, l - 1);
    }
  }

  /** Elements of one name have distinct ranks, rising in document order,
      all below the number of elements of that name. */
  lemma RankOrder(markup: seq<Element>, i: nat, j: nat)
    requires i < j < |markup| && markup[i].name == markup[j].name
    ensures Rank(markup, i) < Rank(markup, j)
  {
    CountGrows(markup, markup[i].name, i + 1, j);
  }

  lemma RankBelowCount(markup: seq<Element>, j: nat)
    requires j < |markup|
    ensures Rank(markup, j) < Count(markup, markup[j].name)
  {
    CountGrows(markup, markup[j].name, j + 1, |markup|);
  }

  /** Two elements of one name with the same rank are the same element. */
  lemma RankInjective(markup: seq<Element>, i: nat, j: nat)
    requires i < |markup| && j < |markup| && markup[i].name == markup[j].name
    requires Rank(markup, i) == Rank(markup, j)
    ensures i == j
  {
    if i < j {
      RankOrder(markup, i, j);
    } else if j < i {
      RankOrder(markup, j, i);
    }
  }

  lemma {:induction false} SelectRanks(markup: seq<Element>, name: string, k: nat)
    requires k <= |markup|
    ensures var a := SelectUpTo(markup, ByName(name), k);
      |a| == CountUpTo(markup, name, k) && forall z :: 0 <= z < |a| ==> Rank(markup, a[z]) == z
    decreases k
  {
    if k > 0 {
      SelectRanks(markup, name, k - 1);
    }
  }

  /** `getElementsByName(name)` lists every element of that name, the one of
      rank `z` at position `z`. */
  lemma NamedRanks(markup: seq<Element>, name: string)
    ensures var a := Named(markup, name);
      |a| == Count(markup, name) && forall z :: 0 <= z < |a| ==> Rank(markup, a[z]) == z
  {
    SelectRanks(markup, name, |markup|);
  }
}
