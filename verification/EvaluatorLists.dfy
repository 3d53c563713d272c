/**
 * The comma-separated professor codes in an evaluator cell, and the professors they stand for:
 * string_to_array, trim, and professors.code = ANY (...).
 */
module EvaluatorLists {
  import opened Wrappers
  import opened SqlText

  /** string_to_array(s, ','). */
  function Split(s: string): (pieces: seq<string>)
    ensures |pieces| >= 1
  {
    if s == "" then [""]
    else
      var rest := Split(s[1..]);
      if s[0] == ',' then [""] + rest else [[s[0]] + rest[0]] + rest[1..]
  }

  function Trimmed(pieces: seq<string>): seq<string> {
    if pieces == [] then []
    else (if Trim(pieces[0]) == "" then [] else [Trim(pieces[0])]) + Trimmed(pieces[1..])
  }

  /** A NULL cell has no codes. */
  function Codes(cell: Option<string>): seq<string> {
    match cell
    case None => []
    case Some(s) => if s == "" then [] else Trimmed(Split(s))
  }

  /** The ids of the professors that the codes name; unknown codes name nobody. */
  function Listed(codes: seq<string>, professors: map<string, nat>): seq<nat> {
    if codes == [] then []
    else
      var before := Listed(codes[..|codes| - 1], professors);
      var c := codes[|codes| - 1];
      if c in professors && professors[c] !in before then before + [professors[c]] else before
  }

  lemma {:induction false} ListedExact(codes: seq<string>, professors: map<string, nat>)
    ensures forall p :: p in Listed(codes, professors) <==>
              exists c :: c in codes && c in professors && professors[c] == p
    ensures forall i, j :: 0 <= i < j < |Listed(codes, professors)| ==>
              Listed(codes, professors)[i] != Listed(codes, professors)[j]
  {
    if codes != [] {
      var init, c := codes[..|codes| - 1], codes[|codes| - 1];
      assert codes == init + [c];
      ListedExact(init, professors);
    }
  }

  // ---------------------------------------------------------------- reading back a written list

  /** A code as a professor can have it in the list: not blank, no spaces around it, no comma. */
  predicate Clean(code: string) {
    code != "" && Trim(code) == code && ',' !in code
  }

  function Join(codes: seq<string>): string {
    if codes == [] then "" else if |codes| == 1 then codes[0] else codes[0] + ", " + Join(codes[1..])
  }

  lemma {:induction false} SplitPlain(code: string)
    requires ',' !in code
    ensures Split(code) == [code]
  {
    if code != "" {
      SplitPlain(code[1..]);
      assert code == [code[0]] + code[1..];
    }
  }

  lemma {:induction false} SplitComma(code: string, rest: string)
    requires ',' !in code
    ensures Split(code + "," + rest) == [code] + Split(rest)
  {
    var s := code + "," + rest;
    if code == "" {
      assert s == "," + rest && s[1..] == rest;
    } else {
      SplitComma(code[1..], rest);
      assert s[1..] == code[1..] + "," + rest;
      assert code == [code[0]] + code[1..];
    }
  }

  lemma SplitSpace(rest: string)
    ensures Split(" " + rest)[1..] == Split(rest)[1..]
    ensures Split(" " + rest)[0] == " " + Split(rest)[0]
  {
    assert (" " + rest)[1..] == rest;
  }

  lemma TrimSpace(s: string)
    ensures Trim(" " + s) == Trim(s)
  {
    assert (" " + s)[1..] == s;
  }

  lemma SpaceTrimmed(rest: string)
    ensures Trimmed(Split(" " + rest)) == Trimmed(Split(rest))
  {
    SplitSpace(rest);
    TrimSpace(Split(rest)[0]);
  }

  /** Codes written with ", " between them are read back one by one. */
  lemma {:induction false} CodesOfJoin(codes: seq<string>)
    requires forall i :: 0 <= i < |codes| ==> Clean(codes[i])
    ensures Codes(Some(Join(codes))) == codes
  {
    if codes != [] {
      var code, rest := codes[0], Join(codes[1..]);
      assert codes == [code] + codes[1..];
      if |codes| == 1 {
        SplitPlain(code);
        assert Trimmed([code]) == [code] + Trimmed([]);
      } else {
        CodesOfJoin(codes[1..]);
        assert codes[1..] != [] && Clean(codes[1]);
        assert rest != "" by {
          assert |codes[1..]| >= 1 && codes[1..][0] == codes[1];
        }
        assert Join(codes) == code + "," + (" " + rest);
        SplitComma(code, " " + rest);
        SpaceTrimmed(rest);
        assert ([code] + Split(" " + rest))[1..] == Split(" " + rest);
      }
    }
  }

  /** A blank cell lists nobody. */
  lemma {:induction false} BlankListsNobody(s: string)
    requires forall i :: 0 <= i < |s| ==> s[i] == ' ' || s[i] == ','
    ensures Codes(Some(s)) == []
  {
    BlankPieces(s);
    AllBlank(Split(s));
  }

  lemma {:induction false} BlankPieces(s: string)
    requires forall i :: 0 <= i < |s| ==> s[i] == ' ' || s[i] == ','
    ensures forall i :: 0 <= i < |Split(s)| ==> Trim(Split(s)[i]) == ""
  {
    if s != "" {
      BlankPieces(s[1..]);
      if s[0] == ' ' {
        assert Split(s)[0] == " " + Split(s[1..])[0];
        TrimSpace(Split(s[1..])[0]);
      }
    } else {
      assert Trim("") == "";
    }
  }

  lemma {:induction false} AllBlank(pieces: seq<string>)
    requires forall i :: 0 <= i < |pieces| ==> Trim(pieces[i]) == ""
    ensures Trimmed(pieces) == []
  {
    if pieces != [] {
      AllBlank(pieces[1..]);
    }
  }
}
