/** convert_dez_to_xlsx.py: which parsed entities are exported, from `--entity` flags
    or from a numbered prompt, and the line announcing the choice. Writing the
    workbooks and reading the answer from the terminal are not part of this model:
    the answer is a parameter and the export is the list of entities it would write. */
module Convert {
  import opened Wrappers
  import opened Text
  import opened Seqs
  import DezParser
  import CliSelector

  type Entity = DezParser.Entity

  // ---------------------------------------------------------------------------
  // main
  // ---------------------------------------------------------------------------

  /** The entities whose name is selected, in parse order. */
  function Filter(entities: seq<Entity>, selected: seq<string>): seq<Entity>
    decreases |entities|
  {
    if |entities| == 0 then []
    else
      var e := entities[|entities| - 1];
      Filter(entities[..|entities| - 1], selected) + (if e.name in selected then [e] else [])
  }

  /** The entities `main` writes, in the order it writes them: all of them for an empty
      selection, otherwise those whose name is selected. */
  function Exported(entities: seq<Entity>, selected: seq<string>): seq<Entity> {
    if |selected| == 0 then entities else Filter(entities, selected)
  }

  /** Filtering distributes over concatenation, so the export keeps the parse order. */
  lemma {:induction false} FilterAppend(a: seq<Entity>, b: seq<Entity>, selected: seq<string>)
    ensures Filter(a + b, selected) == Filter(a, selected) + Filter(b, selected)
    decreases |b|
  {
    if |b| == 0 {
      assert a + b == a;
    } else {
      var b' := b[..|b| - 1];
      assert (a + b)[..|a + b| - 1] == a + b';
      assert (a + b)[|a + b| - 1] == b[|b| - 1];
      FilterAppend(a, b', selected);
    }
  }

  /** An entity is exported exactly when it was parsed and either nothing or its name
      was selected. */
  lemma ExportedMembers(entities: seq<Entity>, selected: seq<string>, e: Entity)
    ensures e in Exported(entities, selected) <==>
              e in entities && (|selected| == 0 || e.name in selected)
  {
    if |selected| > 0 {
      FilterMembers(entities, selected, e);
    }
  }

  lemma {:induction false} FilterMembers(entities: seq<Entity>, selected: seq<string>, e: Entity)
    ensures e in Filter(entities, selected) <==> e in entities && e.name in selected
    decreases |entities|
  {
    if |entities| > 0 {
      var init := entities[..|entities| - 1];
      assert entities == init + [entities[|entities| - 1]];
      FilterMembers(init, selected, e);
    }
  }

  // ---------------------------------------------------------------------------
  // the interactive prompt
  // ---------------------------------------------------------------------------

  /** The 0-based indices the tokens pick, in token order and with repeats. */
  function PickedIndices(parts: seq<string>, count: nat): (r: seq<nat>)
    ensures forall i :: 0 <= i < |r| ==> r[i] < count
    decreases |parts|
  {
    if |parts| == 0 then []
    else
      var k := CliSelector.TokenIndex(parts[|parts| - 1], count);
      PickedIndices(parts[..|parts| - 1], count) + (if k.Some? then [k.value] else [])
  }

  lemma {:induction false} PickedIndicesSpec(parts: seq<string>, count: nat, i: nat)
    ensures i in PickedIndices(parts, count) <==>
              exists t :: 0 <= t < |parts| && CliSelector.TokenIndex(parts[t], count) == Some(i)
    decreases |parts|
  {
    if |parts| > 0 {
      var init := parts[..|parts| - 1];
      var here := CliSelector.TokenIndex(parts[|parts| - 1], count) == Some(i);
      assert i in PickedIndices(parts, count) <==> i in PickedIndices(init, count) || here;
      PickedIndicesSpec(init, count, i);
      if exists t :: 0 <= t < |init| && CliSelector.TokenIndex(init[t], count) == Some(i) {
        var t :| 0 <= t < |init| && CliSelector.TokenIndex(init[t], count) == Some(i);
        assert parts[t] == init[t];
      }
      if exists t :: 0 <= t < |parts| && CliSelector.TokenIndex(parts[t], count) == Some(i) {
        var t :| 0 <= t < |parts| && CliSelector.TokenIndex(parts[t], count) == Some(i);
        if t < |init| {
          assert init[t] == parts[t];
        }
      }
    }
  }

  /** `sorted(picked)` for a set of indices below `n`: the members of `picked` among
      0..n-1, ascending. */
  function Ascending(picked: seq<nat>, n: nat): (r: seq<nat>)
    decreases n
  {
    if n == 0 then [] else Ascending(picked, n - 1) + (if n - 1 in picked then [n - 1] else [])
  }

  predicate StrictlyIncreasing(r: seq<nat>) {
    forall i, j :: 0 <= i < j < |r| ==> r[i] < r[j]
  }

  /** The result is strictly increasing (so duplicate-free) and holds exactly the
      picked indices below `n`. */
  lemma {:induction false} AscendingSpec(picked: seq<nat>, n: nat)
    ensures StrictlyIncreasing(Ascending(picked, n))
    ensures forall i :: 0 <= i < |Ascending(picked, n)| ==> Ascending(picked, n)[i] < n
    ensures forall x :: x in Ascending(picked, n) <==> x in picked && x < n
    decreases n
  {
    if n > 0 {
      AscendingSpec(picked, n - 1);
    }
  }

  /** `selected` for a non-blank answer: the names at the picked positions, by
      position. A repeated entity name can appear twice. */
  function Selected(names: seq<string>, idx: seq<nat>): (r: seq<string>)
    requires forall i :: 0 <= i < |idx| ==> idx[i] < |names|
    ensures |r| == |idx|
    ensures forall k :: 0 <= k < |idx| ==> r[k] == names[idx[k]]
  {
    seq(|idx|, k requires 0 <= k < |idx| => names[idx[k]])
  }

  /** The indices a non-blank answer picks, ascending. */
  function AnswerIndices(names: seq<string>, answer: string): (r: seq<nat>)
    ensures forall i :: 0 <= i < |r| ==> r[i] < |names|
  {
    var r := Ascending(PickedIndices(Split(Strip(answer), ','), |names|), |names|);
    AscendingSpec(PickedIndices(Split(Strip(answer), ','), |names|), |names|);
    r
  }

  /** The selection the prompt produces for the typed `answer`; empty means all. */
  function InteractiveSelection(names: seq<string>, answer: string): seq<string> {
    if Strip(answer) == "" then [] else Selected(names, AnswerIndices(names, answer))
  }

  /** Some token of the answer names position `i`. */
  predicate Named(names: seq<string>, answer: string, i: nat) {
    exists t :: 0 <= t < |Split(Strip(answer), ',')| &&
      CliSelector.TokenIndex(Split(Strip(answer), ',')[t], |names|) == Some(i)
  }

  /** For a non-blank answer the selection lists, by ascending position and each once,
      exactly the positions some token names. */
  lemma InteractiveSelectionSpec(names: seq<string>, answer: string)
    requires Strip(answer) != ""
    ensures StrictlyIncreasing(AnswerIndices(names, answer))
    ensures InteractiveSelection(names, answer) == Selected(names, AnswerIndices(names, answer))
    ensures forall i :: i in AnswerIndices(names, answer) <==> Named(names, answer, i)
  {
    var parts := Split(Strip(answer), ',');
    var picked := PickedIndices(parts, |names|);
    AscendingSpec(picked, |names|);
    forall i ensures i in AnswerIndices(names, answer) <==> Named(names, answer, i) {
      PickedIndicesSpec(parts, |names|, i);
    }
  }

  // ---------------------------------------------------------------------------
  // the command line
  // ---------------------------------------------------------------------------

  /** `selected`: the `--entity` values, verbatim and in order, when there are any;
      otherwise the prompt's selection. */
  function SelectionOf(flags: seq<string>, names: seq<string>, answer: string): seq<string> {
    if |flags| > 0 then flags else InteractiveSelection(names, answer)
  }

  /** The names listed after "Will export:". */
  function Report(selected: seq<string>): string {
    var j := Join(selected, ", ");
    if j == "" then "ALL" else j
  }

  /** The joined selection is empty only for no names or one empty name. */
  lemma {:induction false} JoinBlank(s: seq<string>, sep: string)
    requires |sep| > 0
    ensures Join(s, sep) == "" <==> |s| == 0 || s == [""]
  {
    if |s| > 1 {
      assert |Join(s, sep)| >= |sep|;
    }
  }

  /** "ALL" is announced for an empty selection and for one empty name; any other
      selection is announced by its names. */
  lemma ReportSpec(selected: seq<string>)
    ensures |selected| == 0 ==> Report(selected) == "ALL"
    ensures |selected| > 0 && selected != [""] ==> Report(selected) == Join(selected, ", ")
  {
    JoinBlank(selected, ", ");
  }

  /** With no flags and a blank answer every entity is exported and "ALL" announced. */
  lemma BlankAnswerExportsAll(entities: seq<Entity>, names: seq<string>, answer: string)
    requires Strip(answer) == ""
    ensures Exported(entities, SelectionOf([], names, answer)) == entities
    ensures Report(SelectionOf([], names, answer)) == "ALL"
  {
  }

  /** With flags, exactly the parsed entities of the flagged names are exported. */
  lemma FlagsExportNamed(entities: seq<Entity>, flags: seq<string>, names: seq<string>, answer: string, e: Entity)
    requires |flags| > 0
    ensures e in Exported(entities, SelectionOf(flags, names, answer)) <==> e in entities && e.name in flags
  {
    ExportedMembers(entities, flags, e);
  }
}
