/**
 * fn_upload_charts
 * (src/database/migrations/1781649412764-reject-chart-upload-email-mismatch-for-linked-user.ts) and
 * fn_rollback_charts (src/database/migrations/1778372762000-initial-migration.ts): the nodes of a file are
 * inserted first and wired to their parents, by code, in later passes.
 */
module Charts {
  import opened SqlText
  import opened Wrappers

  /**
   * titled: some translation of the title is not blank. faults: the codes reported for the email and the
   * entity of this row. content: the columns that the passes only copy.
   */
  datatype Row = Row(number: int, code: Option<string>, parentCode: Option<string>, professorCode: Option<string>,
                     titled: bool, faults: seq<string>, content: string)

  datatype Finding = Finding(row: int, code: string)

  /** The surroundings of one upload: professors by code, with their staff, and the node of the school. */
  datatype Setting = Setting(locale: Locale, professors: map<string, nat>, school: Option<int>, id: nat)

  datatype Node = Node(staff: nat, root: Option<int>, content: string, uploadLogId: Option<nat>,
                       nodeCode: Option<string>)

  /** lower(trim(x)), where None is SQL NULL. */
  function Folded(x: Option<string>, locale: Locale): Option<string> {
    if x.None? then None else Some(locale.lower(Trim(x.value)))
  }

  predicate HasParent(r: Row) { Blank(r.parentCode).Some? }

  // ---------------------------------------------------------------- validation

  predicate Twin(rows: seq<Row>, i: nat, j: nat, locale: Locale)
    requires i < |rows| && j < |rows|
  {
    i != j && SameFolded(rows[i].code, rows[j].code, locale)
  }

  predicate HasTwin(rows: seq<Row>, i: nat, locale: Locale)
    requires i < |rows|
  {
    exists j :: 0 <= j < |rows| && Twin(rows, i, j, locale)
  }

  function Duplicates(rows: seq<Row>, n: nat, locale: Locale): seq<Finding>
    requires n <= |rows|
  {
    if n == 0 then []
    else
      Duplicates(rows, n - 1, locale) +
      (if HasTwin(rows, n - 1, locale) then [Finding(rows[n - 1].number, "duplicateCodeInFile")] else [])
  }

  predicate Known(r: Row, s: Setting) {
    Blank(r.professorCode).Some? && Blank(r.professorCode).value in s.professors
  }

  predicate Names(r: Row, code: Option<string>, locale: Locale) {
    Folded(r.code, locale).Some? && Folded(r.code, locale) == Folded(code, locale)
  }

  function Findings(rows: seq<Row>, i: nat, s: Setting): seq<Finding>
    requires i < |rows|
  {
    var r := rows[i];
    (if Blank(r.code).None? then [Finding(r.number, "codeEmpty")] else []) +
    (if r.titled then [] else [Finding(r.number, "titleEmpty")]) +
    (if Blank(r.professorCode).None? then [Finding(r.number, "professorCodeEmpty")]
     else if Known(r, s) then [] else [Finding(r.number, "professorNotFound")]) +
    seq(|r.faults|, k requires 0 <= k < |r.faults| => Finding(r.number, r.faults[k])) +
    (if HasParent(r) && !exists j :: 0 <= j < |rows| && Names(rows[j], r.parentCode, s.locale)
     then [Finding(r.number, "parentNotFound")] else [])
  }

  function AllFindings(rows: seq<Row>, n: nat, s: Setting): seq<Finding>
    requires n <= |rows|
  {
    if n == 0 then [] else AllFindings(rows, n - 1, s) + Findings(rows, n - 1, s)
  }

  /** emails: what the two checks of professors against emails report. */
  function Reported(rows: seq<Row>, emails: seq<Finding>, s: Setting): seq<Finding> {
    Duplicates(rows, |rows|, s.locale) + emails + AllFindings(rows, |rows|, s)
  }

  method Validate(rows: seq<Row>, emails: seq<Finding>, s: Setting) returns (found: seq<Finding>)
    ensures found == Reported(rows, emails, s)
  {
    hide HasTwin, Findings;
    found := [];
    for n := 0 to |rows|
      invariant found == Duplicates(rows, n, s.locale)
    {
      if HasTwin(rows, n, s.locale) {
        found := found + [Finding(rows[n].number, "duplicateCodeInFile")];
      }
    }
    found := found + emails;
    ghost var before := found;
    for n := 0 to |rows|
      invariant found == before + AllFindings(rows, n, s)
    {
      found := found + Findings(rows, n, s);
    }
  }

  ghost predicate RowValid(rows: seq<Row>, i: nat, s: Setting)
    requires i < |rows|
  {
    && Blank(rows[i].code).Some? && rows[i].titled && Known(rows[i], s) && rows[i].faults == []
    && (HasParent(rows[i]) ==> exists j :: 0 <= j < |rows| && Names(rows[j], rows[i].parentCode, s.locale))
  }

  ghost predicate CodesDiffer(rows: seq<Row>, locale: Locale) {
    forall i, j :: 0 <= i < j < |rows| ==> Folded(rows[i].code, locale) != Folded(rows[j].code, locale)
  }

  ghost predicate ValidFile(rows: seq<Row>, s: Setting) {
    CodesDiffer(rows, s.locale) && forall i :: 0 <= i < |rows| ==> RowValid(rows, i, s)
  }

  lemma {:induction false} NoFindings(rows: seq<Row>, n: nat, s: Setting)
    requires n <= |rows|
    ensures AllFindings(rows, n, s) == [] <==> forall i :: 0 <= i < n ==> RowValid(rows, i, s)
  {
    if n > 0 {
      NoFindings(rows, n - 1, s);
      assert Findings(rows, n - 1, s) == [] <==> RowValid(rows, n - 1, s);
    }
  }

  lemma {:induction false} NoDuplicates(rows: seq<Row>, n: nat, locale: Locale)
    requires n <= |rows|
    ensures Duplicates(rows, n, locale) == [] <==>
            forall i, j :: 0 <= i < n && 0 <= j < |rows| ==> !Twin(rows, i, j, locale)
  {
    if n > 0 {
      NoDuplicates(rows, n - 1, locale);
    }
  }

  /** The checks pass exactly when codes differ after trim and lower and every parent is in the file. */
  lemma ValidExactly(rows: seq<Row>, emails: seq<Finding>, s: Setting)
    ensures Reported(rows, emails, s) == [] <==> emails == [] && ValidFile(rows, s)
  {
    hide Duplicates, AllFindings;
    NoDuplicates(rows, |rows|, s.locale);
    NoFindings(rows, |rows|, s);
    if forall i :: 0 <= i < |rows| ==> RowValid(rows, i, s) {
      forall i, j | 0 <= i < |rows| && 0 <= j < |rows| && i != j
        ensures Twin(rows, i, j, s.locale) <==> Folded(rows[i].code, s.locale) == Folded(rows[j].code, s.locale)
      {
        assert RowValid(rows, i, s) && RowValid(rows, j, s);
      }
    }
  }

  // ---------------------------------------------------------------- what an upload stores

  function IndexOf(rows: seq<Row>, code: Option<string>, locale: Locale): (j: nat)
    requires exists j :: 0 <= j < |rows| && Names(rows[j], code, locale)
    ensures j < |rows| && Names(rows[j], code, locale)
  {
    if Names(rows[0], code, locale) then 0
    else
      assert exists j :: 0 <= j < |rows[1..]| && Names(rows[1..][j], code, locale) by {
        var j :| 0 <= j < |rows| && Names(rows[j], code, locale);
        assert rows[1..][j - 1] == rows[j];
      }
      1 + IndexOf(rows[1..], code, locale)
  }

  ghost function ParentRow(rows: seq<Row>, i: nat, s: Setting): (j: nat)
    requires ValidFile(rows, s) && i < |rows| && HasParent(rows[i])
    ensures j < |rows| && Names(rows[j], rows[i].parentCode, s.locale)
  {
    assert RowValid(rows, i, s);
    IndexOf(rows, rows[i].parentCode, s.locale)
  }

  /** In a valid file the parent code names one row. */
  lemma ParentUnique(rows: seq<Row>, i: nat, s: Setting, j: nat)
    requires ValidFile(rows, s) && i < |rows| && HasParent(rows[i]) && j < |rows|
    ensures Names(rows[j], rows[i].parentCode, s.locale) <==> j == ParentRow(rows, i, s)
  {}

  /** Node k, of row k - first, while the first `wired` rows are wired. */
  ghost function NodeAt(rows: seq<Row>, k: int, wired: nat, first: nat, s: Setting): Node
    requires ValidFile(rows, s) && first <= k < first + |rows|
  {
    var i := k - first;
    assert RowValid(rows, i, s);
    var r := rows[i];
    var root := if i < wired && HasParent(r) then Some(first + ParentRow(rows, i, s)) else None;
    Node(s.professors[Blank(r.professorCode).value], root, r.content, Some(s.id), Folded(r.code, s.locale))
  }

  ghost function Stage(base: map<int, Node>, rows: seq<Row>, count: nat, wired: nat, first: nat, s: Setting)
    : map<int, Node>
    requires ValidFile(rows, s) && count <= |rows|
  {
    base + map k | first <= k < first + count :: NodeAt(rows, k, wired, first, s)
  }

  /** One node for each row, under the node of its parent row, or under the school without a parent code. */
  ghost function Charted(base: map<int, Node>, rows: seq<Row>, first: nat, s: Setting): map<int, Node>
    requires ValidFile(rows, s)
  {
    base + map k | first <= k < first + |rows| :: Placed(rows, k, first, s)
  }

  ghost function Placed(rows: seq<Row>, k: int, first: nat, s: Setting): Node
    requires ValidFile(rows, s) && first <= k < first + |rows|
  {
    var i := k - first;
    assert RowValid(rows, i, s);
    var root := if HasParent(rows[i]) then Some(first + ParentRow(rows, i, s)) else s.school;
    Node(s.professors[Blank(rows[i].professorCode).value], root, rows[i].content, Some(s.id), None)
  }

  predicate Mine(n: Node, id: nat) { n.uploadLogId == Some(id) }

  ghost predicate Unused(nodes: map<int, Node>, id: nat) {
    forall k :: k in nodes ==> !Mine(nodes[k], id)
  }

  function WithoutUpload(nodes: map<int, Node>, id: nat): map<int, Node> {
    map k | k in nodes && !Mine(nodes[k], id) :: nodes[k]
  }

  /** The code kept in extra finds the node of a row while the passes run. */
  lemma CodeFindsNode(base: map<int, Node>, rows: seq<Row>, wired: nat, first: nat, s: Setting, k: int,
                      code: Option<string>)
    requires ValidFile(rows, s) && Unused(base, s.id)
    requires k in Stage(base, rows, |rows|, wired, first, s)
    ensures var n := Stage(base, rows, |rows|, wired, first, s)[k];
            Mine(n, s.id) && n.nodeCode.Some? && n.nodeCode == code <==>
            first <= k < first + |rows| && code.Some? && Folded(rows[k - first].code, s.locale) == code
  {}

  function SetRoot(n: Node, root: Option<int>): Node { n.(root := root) }

  /** UPDATE charts child SET root_chart_id = parent.id for one row of the file. */
  function Wire(nodes: map<int, Node>, child: Option<string>, parent: int, id: nat): map<int, Node> {
    map k | k in nodes ::
      if Mine(nodes[k], id) && nodes[k].nodeCode.Some? && nodes[k].nodeCode == child
      then SetRoot(nodes[k], Some(parent))
      else nodes[k]
  }

  lemma InsertNone(base: map<int, Node>, rows: seq<Row>, first: nat, s: Setting)
    requires ValidFile(rows, s)
    ensures Stage(base, rows, 0, 0, first, s) == base
  {}

  lemma NewNode(rows: seq<Row>, n: nat, first: nat, s: Setting)
    requires ValidFile(rows, s) && n < |rows|
    ensures var r := rows[n];
            Known(r, s) &&
            NodeAt(rows, first + n, 0, first, s) ==
            Node(s.professors[Blank(r.professorCode).value], None, r.content, Some(s.id), Folded(r.code, s.locale))
  {
    assert RowValid(rows, n, s);
  }

  lemma InsertRow(base: map<int, Node>, rows: seq<Row>, n: nat, first: nat, s: Setting)
    requires ValidFile(rows, s) && n < |rows|
    ensures Stage(base, rows, n, 0, first, s)[first + n := NodeAt(rows, first + n, 0, first, s)] ==
            Stage(base, rows, n + 1, 0, first, s)
  {
    hide ValidFile, NodeAt;
  }

  lemma WireRow(base: map<int, Node>, rows: seq<Row>, n: nat, first: nat, s: Setting)
    requires ValidFile(rows, s) && Unused(base, s.id) && n < |rows| && HasParent(rows[n])
    ensures Wire(Stage(base, rows, |rows|, n, first, s), Folded(rows[n].code, s.locale),
                 first + ParentRow(rows, n, s), s.id)
         == Stage(base, rows, |rows|, n + 1, first, s)
  {
    hide ValidFile, ParentRow, Folded, Unused;
    var before, after := Stage(base, rows, |rows|, n, first, s), Stage(base, rows, |rows|, n + 1, first, s);
    var code := Folded(rows[n].code, s.locale);
    forall k | k in before
      ensures after[k] == if Mine(before[k], s.id) && before[k].nodeCode.Some? && before[k].nodeCode == code
                          then SetRoot(before[k], Some(first + ParentRow(rows, n, s))) else before[k]
    {
      WireNode(base, rows, n, first, s, k);
    }
  }

  lemma WireNode(base: map<int, Node>, rows: seq<Row>, n: nat, first: nat, s: Setting, k: int)
    requires ValidFile(rows, s) && Unused(base, s.id) && n < |rows| && HasParent(rows[n])
    requires k in Stage(base, rows, |rows|, n, first, s)
    ensures var before, code := Stage(base, rows, |rows|, n, first, s)[k], Folded(rows[n].code, s.locale);
            Stage(base, rows, |rows|, n + 1, first, s)[k] ==
            if Mine(before, s.id) && before.nodeCode.Some? && before.nodeCode == code
            then SetRoot(before, Some(first + ParentRow(rows, n, s))) else before
  {
    hide ValidFile, ParentRow, Folded, Unused;
    CodeFindsNode(base, rows, n, first, s, k, Folded(rows[n].code, s.locale));
    if first <= k < first + |rows| {
      OneRowOfCode(rows, n, k - first, s);
    }
  }

  lemma OneRowOfCode(rows: seq<Row>, n: nat, j: nat, s: Setting)
    requires ValidFile(rows, s) && n < |rows| && j < |rows|
    ensures Folded(rows[n].code, s.locale).Some?
    ensures Folded(rows[j].code, s.locale) == Folded(rows[n].code, s.locale) <==> j == n
  {
    assert RowValid(rows, n, s);
  }

  lemma SkipRow(base: map<int, Node>, rows: seq<Row>, n: nat, first: nat, s: Setting)
    requires ValidFile(rows, s) && n < |rows| && !HasParent(rows[n])
    ensures Stage(base, rows, |rows|, n, first, s) == Stage(base, rows, |rows|, n + 1, first, s)
  {
    hide ValidFile, NodeAt, HasParent;
    forall k | first <= k < first + |rows| ensures NodeAt(rows, k, n, first, s) == NodeAt(rows, k, n + 1, first, s) {
      SkipNode(rows, k, n, first, s);
    }
  }

  lemma SkipNode(rows: seq<Row>, k: int, n: nat, first: nat, s: Setting)
    requires ValidFile(rows, s) && n < |rows| && !HasParent(rows[n]) && first <= k < first + |rows|
    ensures NodeAt(rows, k, n, first, s) == NodeAt(rows, k, n + 1, first, s)
  {
    hide ValidFile, ParentRow, Folded;
  }

  /** Passes 3 and 4: top-level rows go under the school, and the code leaves extra. */
  function HangTop(nodes: map<int, Node>, school: Option<int>, id: nat): map<int, Node> {
    map k | k in nodes :: if Mine(nodes[k], id) && nodes[k].root.None? then SetRoot(nodes[k], school) else nodes[k]
  }

  function DropCode(nodes: map<int, Node>, id: nat): map<int, Node> {
    map k | k in nodes :: if Mine(nodes[k], id) then nodes[k].(nodeCode := None) else nodes[k]
  }

  lemma LastPasses(base: map<int, Node>, rows: seq<Row>, first: nat, s: Setting)
    requires ValidFile(rows, s) && Unused(base, s.id)
    ensures DropCode(HangTop(Stage(base, rows, |rows|, |rows|, first, s), s.school, s.id), s.id)
         == Charted(base, rows, first, s)
  {
    hide ValidFile, ParentRow, Folded;
  }

  // ---------------------------------------------------------------- the table

  class ChartTable {
    var nodes: map<int, Node>
    var nextId: nat

    ghost predicate Valid()
      reads this
    {
      forall k :: k in nodes ==> k < nextId
    }

    constructor ()
      ensures Valid() && nodes == map[]
    {
      nodes, nextId := map[], 1;
    }

    method Upload(rows: seq<Row>, emails: seq<Finding>, s: Setting) returns (found: seq<Finding>)
      requires Valid() && Unused(nodes, s.id)
      modifies this
      ensures Valid()
      ensures found == [] <==> emails == [] && ValidFile(rows, s)
      ensures found == [] ==> nodes == Charted(old(nodes), rows, old(nextId), s)
      ensures found != [] ==> nodes == old(nodes) && nextId == old(nextId)
    {
      hide ValidFile, Unused, Charted, Reported;
      found := Validate(rows, emails, s);
      ValidExactly(rows, emails, s);
      if found != [] {
        return;
      }
      ghost var first, base := nextId, nodes;
      InsertNodes(rows, s);
      WireParents(rows, s, base, first);
      LastPasses(base, rows, first, s);
      nodes := HangTop(nodes, s.school, s.id);
      nodes := DropCode(nodes, s.id);
      ChartedKeys(base, rows, first, s);
    }

    /** Pass 1: every row whose professor is known, with its code and no parent. */
    method InsertNodes(rows: seq<Row>, s: Setting)
      requires Valid() && ValidFile(rows, s)
      modifies this
      ensures nodes == Stage(old(nodes), rows, |rows|, 0, old(nextId), s)
      ensures nextId == old(nextId) + |rows|
    {
      hide NodeAt, Blank, Folded, Stage, ValidFile, Known;
      InsertNone(nodes, rows, nextId, s);
      for n := 0 to |rows|
        invariant nextId == old(nextId) + n
        invariant nodes == Stage(old(nodes), rows, n, 0, old(nextId), s)
      {
        var r := rows[n];
        NewNode(rows, n, old(nextId), s);
        InsertRow(old(nodes), rows, n, old(nextId), s);
        if Known(r, s) {
          var staff := s.professors[Blank(r.professorCode).value];
          nodes := nodes[nextId := Node(staff, None, r.content, Some(s.id), Folded(r.code, s.locale))];
          nextId := nextId + 1;
        }
      }
    }

    /** Pass 2: for each row with a parent code, the node of this upload with that code becomes its root. */
    method WireParents(rows: seq<Row>, s: Setting, ghost base: map<int, Node>, ghost first: nat)
      requires ValidFile(rows, s) && Unused(base, s.id)
      requires nodes == Stage(base, rows, |rows|, 0, first, s)
      modifies this`nodes
      ensures nodes == Stage(base, rows, |rows|, |rows|, first, s)
    {
      hide ValidFile, Stage, Wire, Unused;
      for n := 0 to |rows|
        invariant nodes == Stage(base, rows, |rows|, n, first, s)
      {
        if HasParent(rows[n]) {
          var code := Folded(rows[n].parentCode, s.locale);
          var parents := set k | k in nodes && Mine(nodes[k], s.id) && nodes[k].nodeCode.Some? &&
            nodes[k].nodeCode == code;
          ParentNodes(base, rows, n, first, s);
          var parent :| parent in parents;
          WireRow(base, rows, n, first, s);
          nodes := Wire(nodes, Folded(rows[n].code, s.locale), parent, s.id);
        } else {
          SkipRow(base, rows, n, first, s);
        }
      }
    }

    /** notified: some notification log refers to a node of the upload, which the foreign key protects. */
    method Rollback(id: nat, logged: bool, notified: bool) returns (r: Outcome<()>)
      requires Valid()
      modifies this`nodes
      ensures Valid()
      ensures r == if logged && !notified then Ok(()) else Refused
      ensures nodes == if logged && !notified then WithoutUpload(old(nodes), id) else old(nodes)
    {
      if !logged || notified {
        return Refused;
      }
      nodes := map k | k in nodes :: if Mine(nodes[k], id) then SetRoot(nodes[k], None) else nodes[k];
      nodes := map k | k in nodes && !Mine(nodes[k], id) :: nodes[k];
      return Ok(());
    }
  }

  lemma ChartedKeys(base: map<int, Node>, rows: seq<Row>, first: nat, s: Setting)
    requires ValidFile(rows, s)
    ensures forall k :: k in Charted(base, rows, first, s) <==> k in base || first <= k < first + |rows|
  {}

  /** While row n is being wired, its parent code finds exactly one node. */
  lemma ParentNodes(base: map<int, Node>, rows: seq<Row>, n: nat, first: nat, s: Setting)
    requires ValidFile(rows, s) && Unused(base, s.id) && n < |rows| && HasParent(rows[n])
    ensures var nodes := Stage(base, rows, |rows|, n, first, s);
            (set k | k in nodes && Mine(nodes[k], s.id) && nodes[k].nodeCode.Some? &&
                     nodes[k].nodeCode == Folded(rows[n].parentCode, s.locale)) == {first + ParentRow(rows, n, s)}
  {
    hide ValidFile, ParentRow, Unused;
    var nodes := Stage(base, rows, |rows|, n, first, s);
    var code := Folded(rows[n].parentCode, s.locale);
    var p := ParentRow(rows, n, s);
    forall k | k in nodes
      ensures Mine(nodes[k], s.id) && nodes[k].nodeCode.Some? && nodes[k].nodeCode == code <==> k == first + p
    {
      CodeFindsNode(base, rows, n, first, s, k, code);
      if first <= k < first + |rows| {
        ParentUnique(rows, n, s, k - first);
      }
    }
    assert first + p in nodes;
  }

  // ---------------------------------------------------------------- what the passes achieve

  /** Every row has its own node, wired to the one node of this upload that its parent code names. */
  lemma ParentsExact(base: map<int, Node>, rows: seq<Row>, first: nat, s: Setting, i: nat, k: int)
    requires ValidFile(rows, s) && i < |rows| && s.school.Some? && s.school.value in base
    requires forall key :: key in base ==> key < first
    requires Unused(base, s.id)
    ensures var nodes := Charted(base, rows, first, s);
            && first + i in nodes && (k in nodes && Mine(nodes[k], s.id) <==> first <= k < first + |rows|)
            && (nodes[first + i].root == s.school <==> !HasParent(rows[i]))
            && (HasParent(rows[i]) ==>
                  (nodes[first + i].root == Some(k) <==>
                     first <= k < first + |rows| && Names(rows[k - first], rows[i].parentCode, s.locale)))
  {
    if HasParent(rows[i]) && first <= k < first + |rows| {
      ParentUnique(rows, i, s, k - first);
    }
  }

  /** Rolling an upload back straight away restores the table. */
  lemma UploadThenRollback(base: map<int, Node>, rows: seq<Row>, first: nat, s: Setting)
    requires ValidFile(rows, s) && Unused(base, s.id) && forall key :: key in base ==> key < first
    ensures WithoutUpload(Charted(base, rows, first, s), s.id) == base
  {
    hide ValidFile;
  }

  /** Rolling back one upload and making another commute, so rollbacks need not be last in, first out. */
  lemma RollbackCommutes(base: map<int, Node>, rows: seq<Row>, first: nat, s: Setting, id: nat)
    requires ValidFile(rows, s) && id != s.id && forall key :: key in base ==> key < first
    ensures WithoutUpload(Charted(base, rows, first, s), id) == Charted(WithoutUpload(base, id), rows, first, s)
  {
    hide ValidFile;
  }

  // ---------------------------------------------------------------- parent cycles

  /** The node reached from `k` by following root_chart_id. */
  ghost function Climb(nodes: map<int, Node>, k: int, steps: nat): Option<int>
    decreases steps
  {
    if steps == 0 then Some(k)
    else if k in nodes && nodes[k].root.Some? then Climb(nodes, nodes[k].root.value, steps - 1)
    else None
  }

  ghost predicate Under(nodes: map<int, Node>, k: int, top: Option<int>) {
    exists n :: Climb(nodes, k, n) == top
  }

  /** The row reached from row i by following parent codes in the file. */
  ghost function Ancestor(rows: seq<Row>, i: nat, steps: nat, s: Setting): (r: Option<nat>)
    requires ValidFile(rows, s) && i < |rows|
    ensures r.Some? ==> r.value < |rows|
    decreases steps
  {
    if steps == 0 then Some(i)
    else if HasParent(rows[i]) then Ancestor(rows, ParentRow(rows, i, s), steps - 1, s)
    else None
  }

  ghost predicate LeadsToTop(rows: seq<Row>, i: nat, steps: nat, s: Setting)
    requires ValidFile(rows, s) && i < |rows|
  {
    var a := Ancestor(rows, i, steps, s);
    a.Some? && !HasParent(rows[a.value])
  }

  lemma {:induction false} TopToSchool(base: map<int, Node>, rows: seq<Row>, first: nat, s: Setting, i: nat, steps: nat)
    requires ValidFile(rows, s) && i < |rows| && s.school.Some? && LeadsToTop(rows, i, steps, s)
    ensures Climb(Charted(base, rows, first, s), first + i, steps + 1) == s.school
    decreases steps
  {
    hide ValidFile, ParentRow;
    var nodes := Charted(base, rows, first, s);
    assert nodes[first + i] == Placed(rows, first + i, first, s);
    if steps > 0 {
      TopToSchool(base, rows, first, s, ParentRow(rows, i, s), steps - 1);
    } else {
      assert Climb(nodes, s.school.value, 0) == s.school;
    }
  }

  lemma {:induction false} SchoolToTop(base: map<int, Node>, rows: seq<Row>, first: nat, s: Setting, i: nat, steps: nat)
    returns (m: nat)
    requires ValidFile(rows, s) && i < |rows| && s.school.Some? && s.school.value < first
    requires Climb(Charted(base, rows, first, s), first + i, steps) == s.school
    ensures LeadsToTop(rows, i, m, s)
    decreases steps
  {
    hide ValidFile, ParentRow;
    var nodes := Charted(base, rows, first, s);
    assert nodes[first + i] == Placed(rows, first + i, first, s);
    if !HasParent(rows[i]) {
      m := 0;
    } else {
      assert steps > 0;
      m := SchoolToTop(base, rows, first, s, ParentRow(rows, i, s), steps - 1);
      m := m + 1;
    }
  }

  /** The node of a row hangs under the school exactly when its parent codes lead to a top-level row. */
  lemma UnderSchool(base: map<int, Node>, rows: seq<Row>, first: nat, s: Setting, i: nat)
    requires ValidFile(rows, s) && i < |rows| && s.school.Some? && s.school.value < first
    ensures Under(Charted(base, rows, first, s), first + i, s.school) <==> exists n :: LeadsToTop(rows, i, n, s)
  {
    var nodes, k := Charted(base, rows, first, s), first + i;
    if n :| LeadsToTop(rows, i, n, s) {
      TopToSchool(base, rows, first, s, i, n);
    }
    if n :| Climb(nodes, k, n) == s.school {
      var m := SchoolToTop(base, rows, first, s, i, n);
    }
  }

  /** Rows that are their own ancestors: the checks pass, and no node of such a file reaches the school. */
  lemma {:induction false} CycleNeverEnds(rows: seq<Row>, i: nat, steps: nat, s: Setting)
    requires ValidFile(rows, s) && i < |rows| && forall j :: 0 <= j < |rows| ==> HasParent(rows[j])
    ensures !LeadsToTop(rows, i, steps, s)
    decreases steps
  {
    if steps > 0 {
      CycleNeverEnds(rows, ParentRow(rows, i, s), steps - 1, s);
    }
  }

  lemma NobodyUnderSchool(base: map<int, Node>, rows: seq<Row>, first: nat, s: Setting, i: nat)
    requires ValidFile(rows, s) && i < |rows| && s.school.Some? && s.school.value < first
    requires forall j :: 0 <= j < |rows| ==> HasParent(rows[j])
    ensures !Under(Charted(base, rows, first, s), first + i, s.school)
  {
    hide ValidFile, Charted;
    UnderSchool(base, rows, first, s, i);
    forall n ensures !LeadsToTop(rows, i, n, s) {
      CycleNeverEnds(rows, i, n, s);
    }
  }

  function Same(x: string): string { x }

  const CYCLE := [Row(1, Some("A"), Some("B"), Some("p"), true, [], ""),
                  Row(2, Some("B"), Some("A"), Some("p"), true, [], "")]

  lemma CycleAccepted(base: map<int, Node>, first: nat, school: nat, id: nat)
    requires school < first
    ensures var s := Setting(Locale(Same, Same), map["p" := 7], Some(school), id);
            ValidFile(CYCLE, s) && !Under(Charted(base, CYCLE, first, s), first, Some(school)) &&
            !Under(Charted(base, CYCLE, first, s), first + 1, Some(school))
  {
    hide ValidFile, HasParent, Charted, Under;
    var s := Setting(Locale(Same, Same), map["p" := 7], Some(school), id);
    CycleValid(school, id);
    NobodyUnderSchool(base, CYCLE, first, s, 0);
    NobodyUnderSchool(base, CYCLE, first, s, 1);
  }

  lemma CycleValid(school: nat, id: nat)
    ensures ValidFile(CYCLE, Setting(Locale(Same, Same), map["p" := 7], Some(school), id))
    ensures forall j :: 0 <= j < |CYCLE| ==> HasParent(CYCLE[j])
  {
    var s := Setting(Locale(Same, Same), map["p" := 7], Some(school), id);
    assert Trim("A") == "A" && Trim("B") == "B" && Trim("p") == "p";
    assert "A"[0] != "B"[0];
    assert Names(CYCLE[0], CYCLE[1].parentCode, s.locale) && Names(CYCLE[1], CYCLE[0].parentCode, s.locale);
    assert RowValid(CYCLE, 0, s) && RowValid(CYCLE, 1, s);
  }
}
