/** `replaceOklchColors` and its use by `generatePDF`: every inline property
    whose resolved value mentions `oklch` is overridden with the converted
    value, an undo record is kept for each override, and the returned
    restore function undoes them last to first. */
module StyleOverride {
  import opened JsText
  import opened OklchConvert
  import opened DomStyle
  import opened OverridePlan

  /** `replaceOklchValues` as the conversion the writes apply. */
  function Converter(lib: MathLib): string -> string
  {
    v => ReplaceOklchValues(v, lib)
  }

  /** The `applied` array of `replaceOklchColors` together with the closure
      it returns. `nodes` are the elements the records may refer to. The
      visiting methods take the conversion of a resolved value as `convert`;
      `ReplaceOklchColors` passes `replaceOklchValues`. */
  class Restorer {
    var applied: seq<Record>
    ghost const nodes: set<Element>

    /** Every record refers to an element the restorer may change. */
    ghost predicate Valid()
      reads this
    {
      forall r | r in applied :: r.node in nodes
    }

    constructor (ghost nodes: set<Element>)
      ensures applied == [] && this.nodes == nodes && Valid()
    {
      applied := [];
      this.nodes := nodes;
    }

    /** `processNode`: overrides the qualifying properties of `n`, then
        visits the children in order. A node that is not an `HTMLElement` is
        left alone with everything below it. */
    method ProcessNode(n: Element, convert: string -> string)
      requires n.Wf() && Subtree(n) <= nodes && Valid()
      modifies this, nodes
      ensures Valid()
      ensures Styles(nodes) == Commit(Plan(n, convert), old(Styles(nodes)))
      ensures applied == old(applied) + Log(Plan(n, convert), old(Styles(nodes)))
      decreases n.height, 2
    {
      if !n.isHtml {
        return;
      }
      ghost var start := Styles(nodes);
      OverrideProperties(n, convert);
      ProcessChildren(n, convert);
      ghost var own := NodeWrites(n, |n.computedNames|, convert);
      ghost var below := ChildrenPlan(n, |n.children|, convert);
      CommitAppend(own, below, start);
      LogAppend(own, below, start);
      Associative(old(applied), Log(own, start), Log(below, Commit(own, start)));
    }

    /** The loop of `processNode` over `n.children`, in order. */
    method ProcessChildren(n: Element, convert: string -> string)
      requires n.Wf() && Subtree(n) <= nodes && Valid()
      modifies this, nodes
      ensures Valid()
      ensures Styles(nodes) == Commit(ChildrenPlan(n, |n.children|, convert), old(Styles(nodes)))
      ensures applied == old(applied) + Log(ChildrenPlan(n, |n.children|, convert), old(Styles(nodes)))
      decreases n.height, 1
    {
      ghost var start := Styles(nodes);
      var j := 0;
      while j < |n.children|
        invariant 0 <= j <= |n.children|
        invariant Valid()
        invariant Styles(nodes) == Commit(ChildrenPlan(n, j, convert), start)
        invariant applied == old(applied) + Log(ChildrenPlan(n, j, convert), start)
      {
        SubtreeOfChild(n, j);
        ghost var done := ChildrenPlan(n, j, convert);
        ProcessNode(n.children[j], convert);
        ChildStep(n, j, convert, start);
        Associative(old(applied), Log(done, start), Log(Plan(n.children[j], convert), Commit(done, start)));
        j := j + 1;
      }
    }

    /** The loop of `processNode` over the properties its computed style
        lists, in order. */
    method OverrideProperties(n: Element, convert: string -> string)
      requires n in nodes && Valid()
      modifies this, n
      ensures Valid()
      ensures Styles(nodes) == Commit(NodeWrites(n, |n.computedNames|, convert), old(Styles(nodes)))
      ensures applied == old(applied) + Log(NodeWrites(n, |n.computedNames|, convert), old(Styles(nodes)))
    {
      ghost var start := Styles(nodes);
      var i := 0;
      while i < |n.computedNames|
        invariant 0 <= i <= |n.computedNames|
        invariant Valid()
        invariant Styles(nodes) == Commit(NodeWrites(n, i, convert), start)
        invariant applied == old(applied) + Log(NodeWrites(n, i, convert), start)
      {
        ghost var done := NodeWrites(n, i, convert);
        OverrideProperty(n, i, convert);
        PropertyStep(n, i, convert, start);
        Associative(old(applied), Log(done, start), Log(WritesAt(n, i, convert), Commit(done, start)));
        i := i + 1;
      }
    }

    /** One round of that loop: a resolved value containing `oklch` is
        replaced inline by its conversion, and the inline value it replaced is
        pushed as a record. */
    method OverrideProperty(n: Element, i: nat, convert: string -> string)
      requires n in nodes && Valid() && i < |n.computedNames|
      modifies this, n
      ensures Valid()
      ensures Styles(nodes) == Commit(WritesAt(n, i, convert), old(Styles(nodes)))
      ensures applied == old(applied) + Log(WritesAt(n, i, convert), old(Styles(nodes)))
    {
      var property := n.computedNames[i];
      var originalValue := n.Computed(property);
      if Qualifies(originalValue) {
        var converted := convert(originalValue);
        var previous := GetPropertyValue(n.style, property);
        n.style := SetProperty(n.style, property, converted);
        applied := applied + [Record(n, property, previous)];
        assert Styles(nodes) == old(Styles(nodes))[n := n.style];
        OneWrite(Write(n, property, converted), old(Styles(nodes)));
      }
    }

    /** The restore function: pops the records and runs each, last first,
        until none is left. */
    method Restore()
      requires Valid()
      modifies this, nodes
      ensures Valid() && applied == []
      ensures Styles(nodes) == Rollback(old(applied), old(Styles(nodes)))
    {
      while applied != []
        invariant Valid()
        invariant Rollback(applied, Styles(nodes)) == Rollback(old(applied), old(Styles(nodes)))
        decreases |applied|
      {
        RunLast();
      }
    }

    /** One round of the restore loop: `applied.pop()` and run it. */
    method RunLast()
      requires Valid() && applied != []
      modifies this, nodes
      ensures Valid()
      ensures applied == old(applied)[..|old(applied)| - 1]
      ensures Styles(nodes) == Undo(old(applied)[|old(applied)| - 1], old(Styles(nodes)))
    {
      var revert := applied[|applied| - 1];
      applied := applied[..|applied| - 1];
      revert.node.style := Revert(revert.node.style, revert.property, revert.previous);
      assert Styles(nodes) == Undo(revert, old(Styles(nodes)));
    }
  }

  /** The styles and records after a single write. */
  lemma {:induction false} OneWrite(w: Write, st: map<Element, Style>)
    ensures Commit([w], st) == Apply(w, st)
    ensures Log([w], st) == [Record(w.node, w.property, if w.node in st then GetPropertyValue(st[w.node], w.property) else "")]
  {
    assert [w][..0] == [];
  }

  /** The styles and records after one more property of `n`. */
  lemma {:induction false} PropertyStep(n: Element, i: nat, convert: string -> string, st: map<Element, Style>)
    requires i < |n.computedNames|
    ensures var done := NodeWrites(n, i, convert);
      Commit(NodeWrites(n, i + 1, convert), st) == Commit(WritesAt(n, i, convert), Commit(done, st)) &&
      Log(NodeWrites(n, i + 1, convert), st) == Log(done, st) + Log(WritesAt(n, i, convert), Commit(done, st))
  {
    CommitAppend(NodeWrites(n, i, convert), WritesAt(n, i, convert), st);
    LogAppend(NodeWrites(n, i, convert), WritesAt(n, i, convert), st);
  }

  /** The styles and records after one more child of `n`. */
  lemma {:induction false} ChildStep(n: Element, j: nat, convert: string -> string, st: map<Element, Style>)
    requires n.Wf() && j < |n.children|
    ensures var done := ChildrenPlan(n, j, convert);
      Commit(ChildrenPlan(n, j + 1, convert), st) == Commit(Plan(n.children[j], convert), Commit(done, st)) &&
      Log(ChildrenPlan(n, j + 1, convert), st) == Log(done, st) + Log(Plan(n.children[j], convert), Commit(done, st))
  {
    ChildrenStep(n, j, convert);
    CommitAppend(ChildrenPlan(n, j, convert), Plan(n.children[j], convert), st);
    LogAppend(ChildrenPlan(n, j, convert), Plan(n.children[j], convert), st);
  }

  /** A child's subtree lies inside its parent's. */
  lemma {:induction false} SubtreeOfChild(n: Element, j: nat)
    requires n.Wf() && j < |n.children|
    ensures Subtree(n.children[j]) <= Subtree(n)
  {
    ForestHolds(n, |n.children|, j);
  }

  lemma {:induction false} ForestHolds(n: Element, k: nat, j: nat)
    requires n.Wf() && j < k <= |n.children|
    ensures Subtree(n.children[j]) <= Forest(n, k)
    decreases k
  {
    if j < k - 1 {
      ForestHolds(n, k - 1, j);
    }
  }

  /** `replaceOklchColors(root)`: overrides every qualifying property below
      `root` and returns the restore function holding one record per
      override, in the order the overrides were made. */
  method ReplaceOklchColors(root: Element, lib: MathLib) returns (restorer: Restorer)
    requires root.Wf()
    modifies Subtree(root)
    ensures fresh(restorer) && restorer.nodes == Subtree(root) && restorer.Valid()
    ensures Styles(Subtree(root)) == Commit(Plan(root, Converter(lib)), old(Styles(Subtree(root))))
    ensures restorer.applied == Log(Plan(root, Converter(lib)), old(Styles(Subtree(root))))
  {
    ghost var original := Styles(Subtree(root));
    restorer := new Restorer(Subtree(root));
    assert Styles(Subtree(root)) == original;
    restorer.ProcessNode(root, Converter(lib));
  }

  /** How the export step ends: the file is saved, or the exporter throws. */
  datatype ExportOutcome = Saved | Failed

  /** `generatePDF`: with no element nothing happens; otherwise the colours
      are overridden, the exporter runs on the overridden styles, and the
      restore function runs whether the export succeeded or threw. The
      exporter is the `outcome` parameter and `exported` is what it saw:
      every property that a visited element's computed style lists with an
      `oklch` value reads as `replaceOklchValues` of that value, and every
      other property keeps its inline value. */
  method GeneratePdf(element: Element?, lib: MathLib, outcome: ExportOutcome)
    returns (result: Option<ExportOutcome>, ghost exported: map<Element, Style>)
    requires element != null ==> element.Wf()
    modifies if element == null then {} else Subtree(element)
    ensures element == null ==> result == None
    ensures element != null ==>
              result == Some(outcome) &&
              exported == Commit(Plan(element, Converter(lib)), old(Styles(Subtree(element)))) &&
              Styles(Subtree(element)) == old(Styles(Subtree(element)))
    ensures element != null ==>
              forall e, p | e in Subtree(element) ::
                GetPropertyValue(exported[e], p)
                == if e in Reached(element) && p in e.computedNames && Qualifies(e.Computed(p))
                   then ReplaceOklchValues(e.Computed(p), lib)
                   else GetPropertyValue(old(Styles(Subtree(element)))[e], p)
  {
    if element == null {
      return None, map[];
    }
    ghost var original := Styles(Subtree(element));
    var restoreColors := ReplaceOklchColors(element, lib);
    exported := Styles(Subtree(element));
    result := Some(outcome);
    forall e, p | e in Subtree(element)
      ensures GetPropertyValue(exported[e], p)
              == if e in Reached(element) && p in e.computedNames && Qualifies(e.Computed(p))
                 then ReplaceOklchValues(e.Computed(p), lib) else GetPropertyValue(original[e], p)
    {
      ExportedStyle(element, Converter(lib), original, e, p);
    }
    restoreColors.Restore();
    RollbackCommit(Plan(element, Converter(lib)), original);
  }
}
