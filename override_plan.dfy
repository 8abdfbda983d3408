/** What `replaceOklchColors` does, stated on values: the inline writes it
    makes, in order (`Plan`); the inline styles after them (`Commit`); the
    undo records it keeps (`Log`); and what the restore function makes of
    the styles by running the records backwards (`Rollback`). The conversion
    of a resolved value is a parameter `convert`; the engine passes
    `replaceOklchValues`. */
module OverridePlan {
  import opened JsText
  import opened DomStyle

  /** One inline write: `node.style.setProperty(property, value)`. */
  datatype Write = Write(node: Element, property: string, value: string)

  /** One undo record: put `previous` back on `node`, or remove the property
      when `previous` is "". */
  datatype Record = Record(node: Element, property: string, previous: string)

  /** A resolved value is overridden when the text `oklch` occurs in it. */
  function Qualifies(value: string): (r: bool)
    ensures StartsWith(value, "oklch") ==> r
    ensures r ==> |value| >= 5
  {
    Contains(value, "oklch")
  }

  /** A resolved value qualifies exactly when `oklch` occurs in it at some position. */
  lemma {:induction false} QualifiesIffOccurs(value: string)
    ensures Qualifies(value) <==> exists i :: OccursAt(value, "oklch", i)
  {
    ContainsIffOccurs(value, "oklch");
  }

  /** The write `processNode` makes for the `i`-th computed property of `n`:
      none, or one when the resolved value contains `oklch`. */
  function WritesAt(n: Element, i: nat, convert: string -> string): (ws: seq<Write>)
    requires i < |n.computedNames|
    ensures |ws| <= 1
    ensures forall w | w in ws :: w.node == n && w.property == n.computedNames[i]
              && Qualifies(n.Computed(w.property)) && w.value == convert(n.Computed(w.property))
  {
    var property := n.computedNames[i];
    var value := n.Computed(property);
    if Qualifies(value) then [Write(n, property, convert(value))] else []
  }

  /** The writes for the first `k` computed properties of `n`, in order. */
  function NodeWrites(n: Element, k: nat, convert: string -> string): seq<Write>
    requires k <= |n.computedNames|
  {
    if k == 0 then [] else NodeWrites(n, k - 1, convert) + WritesAt(n, k - 1, convert)
  }

  /** All writes of `processNode(n)`: nothing for a node that is not an
      `HTMLElement`, otherwise its own writes, then those of its children in
      document order. Each write is to a visited element, for a property its
      computed style lists whose value contains `oklch`, with the converted
      value; `PlanExactly` adds that every such property is written. */
  ghost function Plan(n: Element, convert: string -> string): seq<Write>
    requires n.Wf()
    decreases n.height, 1, 0
  {
    if !n.isHtml then []
    else NodeWrites(n, |n.computedNames|, convert) + ChildrenPlan(n, |n.children|, convert)
  }

  /** The writes for the first `k` children of `n`. */
  ghost function ChildrenPlan(n: Element, k: nat, convert: string -> string): seq<Write>
    requires n.Wf() && k <= |n.children|
    decreases n.height, 0, k
  {
    if k == 0 then []
    else
      assert n.children[k - 1] in n.children;
      ChildrenPlan(n, k - 1, convert) + Plan(n.children[k - 1], convert)
  }

  /** The elements `processNode(n)` visits: `n` and, below an `HTMLElement`,
      the elements its children visit. */
  ghost function Reached(n: Element): set<Element>
    requires n.Wf()
    decreases n.height, 1, 0
  {
    if !n.isHtml then {} else {n} + ReachedBelow(n, |n.children|)
  }

  ghost function ReachedBelow(n: Element, k: nat): set<Element>
    requires n.Wf() && k <= |n.children|
    decreases n.height, 0, k
  {
    if k == 0 then {}
    else
      assert n.children[k - 1] in n.children;
      ReachedBelow(n, k - 1) + Reached(n.children[k - 1])
  }

  /** One write applied to the styles. */
  function Apply(w: Write, st: map<Element, Style>): map<Element, Style>
  {
    if w.node in st then st[w.node := SetProperty(st[w.node], w.property, w.value)] else st
  }

  /** The styles after the writes of `plan`, first to last. */
  function Commit(plan: seq<Write>, st: map<Element, Style>): (r: map<Element, Style>)
    ensures r.Keys == st.Keys
  {
    if plan == [] then st else Apply(plan[|plan| - 1], Commit(plan[..|plan| - 1], st))
  }

  /** The undo records of `plan`, one per write, each holding the inline
      value the write replaced. */
  function Log(plan: seq<Write>, st: map<Element, Style>): (log: seq<Record>)
    ensures |log| == |plan|
    ensures forall i | 0 <= i < |plan| :: log[i].node == plan[i].node && log[i].property == plan[i].property
  {
    if plan == [] then []
    else
      var prefix := plan[..|plan| - 1];
      var w := plan[|plan| - 1];
      var before := Commit(prefix, st);
      var previous := if w.node in before then GetPropertyValue(before[w.node], w.property) else "";
      Log(prefix, st) + [Record(w.node, w.property, previous)]
  }

  /** Each record holds the inline value its write replaced: the value of
      the property after the writes before it. */
  lemma {:induction false} LogHoldsPrevious(plan: seq<Write>, st: map<Element, Style>, i: nat)
    requires i < |plan| && plan[i].node in st
    ensures Log(plan, st)[i].previous == GetPropertyValue(Commit(plan[..i], st)[plan[i].node], plan[i].property)
  {
    var prefix := plan[..|plan| - 1];
    if i < |prefix| {
      LogHoldsPrevious(prefix, st, i);
      assert prefix[..i] == plan[..i];
    }
  }

  /** What the restore function's revert closure does to one style. */
  function Revert(style: Style, property: string, previous: string): (r: Style)
    ensures GetPropertyValue(r, property) == previous
    ensures forall q | q != property :: GetPropertyValue(r, q) == GetPropertyValue(style, q)
  {
    if previous != "" then SetProperty(style, property, previous) else RemoveProperty(style, property)
  }

  /** One undo record applied to the styles: the record's property reads as
      the saved value, and every other property of every element is kept. */
  function Undo(r: Record, st: map<Element, Style>): (after: map<Element, Style>)
    ensures after.Keys == st.Keys
    ensures forall e, q | e in st :: GetPropertyValue(after[e], q)
              == if e == r.node && q == r.property then r.previous else GetPropertyValue(st[e], q)
  {
    if r.node in st then st[r.node := Revert(st[r.node], r.property, r.previous)] else st
  }

  /** The restore function: records popped and run from the last to the
      first. The first record runs last, so its saved value is the one its
      property is left with. */
  function Rollback(log: seq<Record>, st: map<Element, Style>): (after: map<Element, Style>)
    ensures after.Keys == st.Keys
    ensures log != [] && log[0].node in st ==>
              GetPropertyValue(after[log[0].node], log[0].property) == log[0].previous
  {
    if log == [] then st
    else
      var rest := log[..|log| - 1];
      assert |rest| > 0 ==> rest[0] == log[0];
      Rollback(rest, Undo(log[|log| - 1], st))
  }

  // ---------------------------------------------------------------------
  // Restoring

  /** Undoing a write with the record taken just before it gives the style back. */
  lemma {:induction false} UndoWrite(w: Write, st: map<Element, Style>)
    requires w.node in st
    ensures Undo(Record(w.node, w.property, GetPropertyValue(st[w.node], w.property)), Apply(w, st)) == st
  {
    var style := st[w.node];
    var previous := GetPropertyValue(style, w.property);
    var back := Revert(SetProperty(style, w.property, w.value), w.property, previous);
    assert back == style by {
      forall q
        ensures q in back <==> q in style
        ensures q in back ==> back[q] == style[q]
      {
        assert GetPropertyValue(back, q) == GetPropertyValue(style, q);
      }
    }
  }

  /** Restore after apply: running the undo records of any sequence of writes
      backwards over the styles the writes produced gives the original styles
      back, property by property, including properties that had no inline
      value before and are removed again. */
  lemma {:induction false} RollbackCommit(plan: seq<Write>, st: map<Element, Style>)
    ensures Rollback(Log(plan, st), Commit(plan, st)) == st
  {
    if plan != [] {
      var prefix := plan[..|plan| - 1];
      var w := plan[|plan| - 1];
      var before := Commit(prefix, st);
      var log := Log(plan, st);
      assert log[..|log| - 1] == Log(prefix, st);
      if w.node in before {
        UndoWrite(w, before);
      }
      RollbackCommit(prefix, st);
    }
  }

  /** Writes made one after the other: the styles after both stretches. */
  lemma {:induction false} CommitAppend(p: seq<Write>, q: seq<Write>, st: map<Element, Style>)
    ensures Commit(p + q, st) == Commit(q, Commit(p, st))
    decreases |q|
  {
    if q == [] {
      assert p + q == p;
    } else {
      assert (p + q)[..|p + q| - 1] == p + q[..|q| - 1];
      CommitAppend(p, q[..|q| - 1], st);
    }
  }

  /** Writes made one after the other: the records of both stretches, each
      taken against the styles of its own time. */
  lemma {:induction false} LogAppend(p: seq<Write>, q: seq<Write>, st: map<Element, Style>)
    ensures Log(p + q, st) == Log(p, st) + Log(q, Commit(p, st))
    decreases |q|
  {
    if q == [] {
      assert p + q == p;
    } else {
      var q' := q[..|q| - 1];
      var w := q[|q| - 1];
      assert (p + q)[..|p + q| - 1] == p + q';
      assert (p + q)[|p + q| - 1] == w;
      LogAppend(p, q', st);
      CommitAppend(p, q', st);
      var before := Commit(q', Commit(p, st));
      var last := [Record(w.node, w.property, if w.node in before then GetPropertyValue(before[w.node], w.property) else "")];
      assert Log(p + q, st) == Log(p + q', st) + last;
      assert Log(q, Commit(p, st)) == Log(q', Commit(p, st)) + last;
      Associative(Log(p, st), Log(q', Commit(p, st)), last);
    }
  }

  /** Records pushed in two stretches. */
  lemma {:induction false} Associative(a: seq<Record>, b: seq<Record>, c: seq<Record>)
    ensures (a + b) + c == a + (b + c)
  {
  }

  /** A record run on a style nobody holds changes nothing; a rollback
      of no records changes nothing, so a second restore is a no-op. */
  lemma {:induction false} RollbackNothing(st: map<Element, Style>)
    ensures Rollback([], st) == st
  {
  }

  // ---------------------------------------------------------------------
  // Which properties are written

  /** The writes for one node: a property is written exactly when its
      resolved value contains `oklch`, with the converted value. */
  lemma {:induction false} NodeWritesExactly(n: Element, k: nat, convert: string -> string, w: Write)
    requires k <= |n.computedNames|
    ensures w in NodeWrites(n, k, convert) <==>
              w.node == n &&
              (exists i | 0 <= i < k :: n.computedNames[i] == w.property) &&
              Qualifies(n.Computed(w.property)) &&
              w.value == convert(n.Computed(w.property))
  {
    NodeWritesAt(n, k, convert, w);
    if w in NodeWrites(n, k, convert) {
      var i :| 0 <= i < k && w in WritesAt(n, i, convert);
      assert n.computedNames[i] == w.property;
    }
    if w.node == n && Qualifies(n.Computed(w.property)) && w.value == convert(n.Computed(w.property))
       && exists i | 0 <= i < k :: n.computedNames[i] == w.property {
      var i :| 0 <= i < k && n.computedNames[i] == w.property;
      assert w in WritesAt(n, i, convert);
    }
  }

  /** The writes for the first `k` properties are those `WritesAt` makes. */
  lemma {:induction false} NodeWritesAt(n: Element, k: nat, convert: string -> string, w: Write)
    requires k <= |n.computedNames|
    ensures w in NodeWrites(n, k, convert) <==> exists i | 0 <= i < k :: w in WritesAt(n, i, convert)
  {
    if k > 0 {
      NodeWritesAt(n, k - 1, convert, w);
      var prev := NodeWrites(n, k - 1, convert);
      if w in prev {
        var i :| 0 <= i < k - 1 && w in WritesAt(n, i, convert);
        assert 0 <= i < k && w in WritesAt(n, i, convert);
      }
      if exists i | 0 <= i < k :: w in WritesAt(n, i, convert) {
        var i :| 0 <= i < k && w in WritesAt(n, i, convert);
        if i < k - 1 {
          assert w in prev;
        }
      }
    }
  }

  /** Number of writes to `property` in `ws`. */
  function WritesTo(ws: seq<Write>, property: string): nat
  {
    if ws == [] then 0
    else WritesTo(ws[..|ws| - 1], property) + (if ws[|ws| - 1].property == property then 1 else 0)
  }

  /** No name is listed twice: none occurs among those before it. */
  predicate Distinct(names: seq<string>)
  {
    forall i | 0 <= i < |names| :: names[i] !in names[..i]
  }

  /** Computed names are distinct (as a computed style's are): then every
      qualifying property gets exactly one write, and any other none. */
  lemma {:induction false} OneWritePerProperty(n: Element, k: nat, convert: string -> string, property: string)
    requires k <= |n.computedNames| && Distinct(n.computedNames)
    ensures WritesTo(NodeWrites(n, k, convert), property)
            == if property in n.computedNames[..k] && Qualifies(n.Computed(property)) then 1 else 0
  {
    if k > 0 {
      OneWritePerProperty(n, k - 1, convert, property);
      CountStep(n, k, convert, property);
    } else {
      assert NodeWrites(n, 0, convert) == [] && n.computedNames[..0] == [];
    }
  }

  /** The count for the first `k` properties from the count for the first
      `k - 1`. */
  lemma {:induction false} CountStep(n: Element, k: nat, convert: string -> string, property: string)
    requires 0 < k <= |n.computedNames| && Distinct(n.computedNames)
    requires WritesTo(NodeWrites(n, k - 1, convert), property)
             == if property in n.computedNames[..k - 1] && Qualifies(n.Computed(property)) then 1 else 0
    ensures WritesTo(NodeWrites(n, k, convert), property)
            == if property in n.computedNames[..k] && Qualifies(n.Computed(property)) then 1 else 0
  {
    NewName(n.computedNames, k, property);
    CountLast(n, k, convert, property);
  }

  /** The `k`-th property adds one write to `property` exactly when it is
      that property and qualifies. */
  lemma {:induction false} CountLast(n: Element, k: nat, convert: string -> string, property: string)
    requires 0 < k <= |n.computedNames|
    ensures WritesTo(NodeWrites(n, k, convert), property)
            == WritesTo(NodeWrites(n, k - 1, convert), property) +
               (if n.computedNames[k - 1] == property && Qualifies(n.Computed(property)) then 1 else 0)
  {
    var name := n.computedNames[k - 1];
    if Qualifies(n.Computed(name)) {
      var w := Write(n, name, convert(n.Computed(name)));
      assert NodeWrites(n, k, convert) == NodeWrites(n, k - 1, convert) + [w];
      WritesToLast(NodeWrites(n, k - 1, convert), w, property);
    } else {
      assert NodeWrites(n, k, convert) == NodeWrites(n, k - 1, convert);
    }
  }

  /** The `k`-th name of a list without repetitions is new. */
  lemma {:induction false} NewName(names: seq<string>, k: nat, property: string)
    requires 0 < k <= |names| && Distinct(names)
    ensures property in names[..k] <==> property in names[..k - 1] || property == names[k - 1]
    ensures property == names[k - 1] ==> property !in names[..k - 1]
  {
    assert names[..k] == names[..k - 1] + [names[k - 1]];
  }

  /** One more write counts for its own property only. */
  lemma {:induction false} WritesToLast(ws: seq<Write>, w: Write, property: string)
    ensures WritesTo(ws + [w], property) == WritesTo(ws, property) + (if w.property == property then 1 else 0)
  {
    assert (ws + [w])[..|ws|] == ws;
  }

  /** Every write of the plan is to a visited element, for a property of its
      computed style whose value contains `oklch`, with the converted value;
      and every such property of every visited element is written. */
  lemma {:induction false} PlanExactly(n: Element, convert: string -> string, w: Write)
    requires n.Wf()
    ensures w in Plan(n, convert) <==>
              w.node in Reached(n) &&
              w in NodeWrites(w.node, |w.node.computedNames|, convert)
    decreases n.height, 1, 0
  {
    if n.isHtml {
      ChildrenPlanExactly(n, |n.children|, convert, w);
      NodeWritesExactly(n, |n.computedNames|, convert, w);
      if w.node == n && w in NodeWrites(w.node, |w.node.computedNames|, convert) {
        assert w in Plan(n, convert);
      }
    }
  }

  /** Every write of the plan is to a visited element, for a property its
      computed style lists whose resolved value contains `oklch`, with that
      value converted. */
  lemma {:induction false} PlanSound(n: Element, convert: string -> string)
    requires n.Wf()
    ensures forall w | w in Plan(n, convert) :: w.node in Reached(n) && w.property in w.node.computedNames
              && Qualifies(w.node.Computed(w.property)) && w.value == convert(w.node.Computed(w.property))
  {
    forall w | w in Plan(n, convert)
      ensures w.node in Reached(n) && w.property in w.node.computedNames
              && Qualifies(w.node.Computed(w.property)) && w.value == convert(w.node.Computed(w.property))
    {
      PlanExactly(n, convert, w);
      NodeWritesSound(w.node, |w.node.computedNames|, convert, w);
    }
  }

  /** The same for the writes below the first `k` children. */
  lemma {:induction false} ChildrenPlanSound(n: Element, k: nat, convert: string -> string)
    requires n.Wf() && k <= |n.children|
    ensures forall w | w in ChildrenPlan(n, k, convert) :: w.node in ReachedBelow(n, k) && w.property in w.node.computedNames
              && Qualifies(w.node.Computed(w.property)) && w.value == convert(w.node.Computed(w.property))
  {
    forall w | w in ChildrenPlan(n, k, convert)
      ensures w.node in ReachedBelow(n, k) && w.property in w.node.computedNames
              && Qualifies(w.node.Computed(w.property)) && w.value == convert(w.node.Computed(w.property))
    {
      ChildrenPlanExactly(n, k, convert, w);
      NodeWritesSound(w.node, |w.node.computedNames|, convert, w);
    }
  }

  /** A write of one element's property loop is to that element, for a
      listed property whose resolved value qualifies, with that value converted. */
  lemma {:induction false} NodeWritesSound(n: Element, k: nat, convert: string -> string, w: Write)
    requires k <= |n.computedNames| && w in NodeWrites(n, k, convert)
    ensures w.node == n && w.property in n.computedNames
            && Qualifies(n.Computed(w.property)) && w.value == convert(n.Computed(w.property))
  {
    NodeWritesExactly(n, k, convert, w);
    var i :| 0 <= i < k && n.computedNames[i] == w.property;
    assert n.computedNames[i] in n.computedNames;
  }

  lemma {:induction false} ChildrenPlanExactly(n: Element, k: nat, convert: string -> string, w: Write)
    requires n.Wf() && k <= |n.children|
    ensures w in ChildrenPlan(n, k, convert) <==>
              w.node in ReachedBelow(n, k) &&
              w in NodeWrites(w.node, |w.node.computedNames|, convert)
    decreases n.height, 0, k
  {
    if k > 0 {
      assert n.children[k - 1] in n.children;
      ChildrenPlanExactly(n, k - 1, convert, w);
      PlanExactly(n.children[k - 1], convert, w);
    }
  }

  /** A subtree whose visited elements hold no `oklch` value is left alone:
      nothing is written and nothing is recorded. */
  lemma {:induction false} NoColorsNoWrites(n: Element, convert: string -> string)
    requires n.Wf()
    requires forall m, i | m in Reached(n) && 0 <= i < |m.computedNames| ::
               !Qualifies(m.Computed(m.computedNames[i]))
    ensures Plan(n, convert) == []
  {
    if Plan(n, convert) != [] {
      PlanSound(n, convert);
      SomeWrite(Plan(n, convert));
      assert false;
    }
  }

  /** A non-empty plan holds its first write. */
  lemma {:induction false} SomeWrite(plan: seq<Write>)
    requires plan != []
    ensures plan[0] in plan
  {
  }

  /** A node that is not an `HTMLElement` is skipped together with
      everything below it. */
  lemma {:induction false} SkipsNonHtml(n: Element, convert: string -> string)
    requires n.Wf() && !n.isHtml
    ensures Plan(n, convert) == [] && Reached(n) == {}
  {
  }

  /** The visit is in pre-order: an `HTMLElement`'s own writes come first,
      followed by the writes of each child's subtree, children in order. */
  lemma {:induction false} PreOrder(n: Element, convert: string -> string, k: nat)
    requires n.Wf() && n.isHtml && k < |n.children|
    ensures var p := Plan(n, convert);
      var own := NodeWrites(n, |n.computedNames|, convert);
      var before := ChildrenPlan(n, k, convert);
      var child := Plan(n.children[k], convert);
      |own| + |before| + |child| <= |p| &&
      p[..|own|] == own &&
      p[|own| + |before|..|own| + |before| + |child|] == child
  {
    PlanOfHtml(n, convert);
    ChildInChildren(n, k, convert);
    PlacedChild(Plan(n, convert), NodeWrites(n, |n.computedNames|, convert), ChildrenPlan(n, |n.children|, convert),
                ChildrenPlan(n, k, convert), Plan(n.children[k], convert));
  }

  /** The children's writes begin with those of the children before `k`,
      followed by those of child `k`. */
  lemma {:induction false} ChildInChildren(n: Element, k: nat, convert: string -> string)
    requires n.Wf() && k < |n.children|
    ensures var all := ChildrenPlan(n, |n.children|, convert);
      var front := ChildrenPlan(n, k, convert) + Plan(n.children[k], convert);
      |front| <= |all| && all[..|front|] == front
  {
    ChildrenPlanPrefix(n, k + 1, |n.children|, convert);
    ChildrenStep(n, k, convert);
  }

  /** An `HTMLElement`'s writes: its own, then its children's. */
  lemma {:induction false} PlanOfHtml(n: Element, convert: string -> string)
    requires n.Wf() && n.isHtml
    ensures Plan(n, convert) == NodeWrites(n, |n.computedNames|, convert) + ChildrenPlan(n, |n.children|, convert)
  {
  }

  /** One more child: its writes follow those of the children before it. */
  lemma {:induction false} ChildrenStep(n: Element, k: nat, convert: string -> string)
    requires n.Wf() && k < |n.children|
    ensures ChildrenPlan(n, k + 1, convert) == ChildrenPlan(n, k, convert) + Plan(n.children[k], convert)
  {
  }

  /** The same three facts as one conjunction, in the shape `PreOrder` states them. */
  lemma {:induction false} PlacedChild(p: seq<Write>, own: seq<Write>, all: seq<Write>, before: seq<Write>, child: seq<Write>)
    requires p == own + all
    requires |before + child| <= |all| && all[..|before + child|] == before + child
    ensures |own| + |before| + |child| <= |p| &&
      p[..|own|] == own &&
      p[|own| + |before|..|own| + |before| + |child|] == child
  {
    Middle(p, own, all, before, child);
  }

  /** Positions inside `own + all` when `all` begins with `before + child`. */
  lemma {:induction false} Middle(p: seq<Write>, own: seq<Write>, all: seq<Write>, before: seq<Write>, child: seq<Write>)
    requires p == own + all
    requires |before + child| <= |all| && all[..|before + child|] == before + child
    ensures |own| + |before| + |child| <= |p|
    ensures p[..|own|] == own
    ensures p[|own| + |before|..|own| + |before| + |child|] == child
  {
    assert (own + all)[|own| + |before|..|own| + |before| + |child|] == all[|before|..|before| + |child|];
    assert all[|before|..|before| + |child|] == (before + child)[|before|..];
  }

  /** The writes for the first `j` children begin the writes for the first `k`. */
  lemma {:induction false} ChildrenPlanPrefix(n: Element, j: nat, k: nat, convert: string -> string)
    requires n.Wf() && j <= k <= |n.children|
    ensures var short := ChildrenPlan(n, j, convert);
      var long := ChildrenPlan(n, k, convert);
      |short| <= |long| && long[..|short|] == short
    decreases k
  {
    if j < k {
      ChildrenPlanPrefix(n, j, k - 1, convert);
      assert n.children[k - 1] in n.children;
    }
  }

  // ---------------------------------------------------------------------
  // What the exporter sees

  /** A write decides the value of its property until a later write to the
      same property of the same element: after the writes, the property
      holds the value of its last write. */
  lemma {:induction false} LastWriteWins(plan: seq<Write>, st: map<Element, Style>, i: nat)
    requires i < |plan| && plan[i].node in st
    requires forall j | i < j < |plan| :: !(plan[j].node == plan[i].node && plan[j].property == plan[i].property)
    ensures GetPropertyValue(Commit(plan, st)[plan[i].node], plan[i].property) == plan[i].value
  {
    var last := |plan| - 1;
    var prefix := plan[..last];
    if i < last {
      LastWriteWins(prefix, st, i);
    }
  }

  /** A property no write targets keeps its inline value. */
  lemma {:induction false} UntouchedPropertyKept(plan: seq<Write>, st: map<Element, Style>, e: Element, property: string)
    requires e in st
    requires forall w | w in plan :: !(w.node == e && w.property == property)
    ensures GetPropertyValue(Commit(plan, st)[e], property) == GetPropertyValue(st[e], property)
  {
    if plan != [] {
      var prefix := plan[..|plan| - 1];
      assert forall w | w in prefix :: w in plan;
      UntouchedPropertyKept(prefix, st, e, property);
    }
  }

  /** The elements `processNode` visits lie in the subtree of its root. */
  lemma {:induction false} ReachedInSubtree(n: Element)
    requires n.Wf()
    ensures Reached(n) <= Subtree(n)
    decreases n.height, 1, 0
  {
    if n.isHtml {
      ReachedBelowInForest(n, |n.children|);
    }
  }

  lemma {:induction false} ReachedBelowInForest(n: Element, k: nat)
    requires n.Wf() && k <= |n.children|
    ensures ReachedBelow(n, k) <= Forest(n, k)
    decreases n.height, 0, k
  {
    if k > 0 {
      assert n.children[k - 1] in n.children;
      ReachedBelowInForest(n, k - 1);
      ReachedInSubtree(n.children[k - 1]);
    }
  }

  /** When writes to a property all carry one value and there is at least
      one, the property ends with that value. */
  lemma {:induction false} UniformWrites(plan: seq<Write>, st: map<Element, Style>, e: Element, property: string, v: string)
    requires e in st
    requires exists w | w in plan :: w.node == e && w.property == property
    requires forall w | w in plan && w.node == e && w.property == property :: w.value == v
    ensures GetPropertyValue(Commit(plan, st)[e], property) == v
  {
    var prefix := plan[..|plan| - 1];
    var last := plan[|plan| - 1];
    assert forall w | w in prefix :: w in plan;
    if !(last.node == e && last.property == property) {
      var w :| w in plan && w.node == e && w.property == property;
      assert w in prefix;
      UniformWrites(prefix, st, e, property, v);
    }
  }

  /** What the exporter sees, property by property: a property that the
      computed style of a visited element lists with a value containing
      `oklch` reads as the converted value, and every other property of every
      element keeps its inline value. */
  lemma {:induction false} ExportedStyle(root: Element, convert: string -> string, st: map<Element, Style>, e: Element, property: string)
    requires root.Wf() && e in st
    ensures GetPropertyValue(Commit(Plan(root, convert), st)[e], property)
            == if e in Reached(root) && property in e.computedNames && Qualifies(e.Computed(property))
               then convert(e.Computed(property)) else GetPropertyValue(st[e], property)
  {
    var plan := Plan(root, convert);
    if e in Reached(root) && property in e.computedNames && Qualifies(e.Computed(property)) {
      var w := Write(e, property, convert(e.Computed(property)));
      var i :| 0 <= i < |e.computedNames| && e.computedNames[i] == property;
      NodeWritesExactly(e, |e.computedNames|, convert, w);
      PlanExactly(root, convert, w);
      PlanSound(root, convert);
      UniformWrites(plan, st, e, property, w.value);
    } else {
      PlanSound(root, convert);
      UntouchedPropertyKept(plan, st, e, property);
    }
  }

  /** An element the writes do not touch keeps its whole inline style. */
  lemma {:induction false} UntouchedElementKept(plan: seq<Write>, st: map<Element, Style>, e: Element)
    requires e in st
    requires forall w | w in plan :: w.node != e
    ensures Commit(plan, st)[e] == st[e]
  {
    if plan != [] {
      var prefix := plan[..|plan| - 1];
      assert forall w | w in prefix :: w in plan;
      UntouchedElementKept(prefix, st, e);
    }
  }
}
