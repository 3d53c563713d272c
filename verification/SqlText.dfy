/** The text functions of the upload functions: trim, NULLIF(trim(x), '') and case folding. */
module SqlText {
  import opened Wrappers

  /** lower() and upper(): their result depends on the database locale, so they are parameters. */
  datatype Locale = Locale(lower: string -> string, upper: string -> string)

  function TrimLeft(s: string): string {
    if s != [] && s[0] == ' ' then TrimLeft(s[1..]) else s
  }

  function TrimRight(s: string): string {
    if s != [] && s[|s| - 1] == ' ' then TrimRight(s[..|s| - 1]) else s
  }

  /** trim(s): spaces, and only spaces, are cut off at both ends. */
  function Trim(s: string): string {
    TrimRight(TrimLeft(s))
  }

  /** NULLIF(trim(x), ''), where None is SQL NULL. */
  function Blank(x: Option<string>): Option<string> {
    match x
    case None => None
    case Some(s) => if Trim(s) == "" then None else Some(Trim(s))
  }

  /** Neither code is blank and they agree after trim and lower, as the duplicate checks compare them. */
  predicate SameFolded(a: Option<string>, b: Option<string>, locale: Locale) {
    && Blank(a).Some? && Blank(b).Some?
    && locale.lower(Blank(a).value) == locale.lower(Blank(b).value)
  }

  /** The single-letter modality of the file as a code of type group TG103. */
  function ModalityCode(modality: Option<string>, locale: Locale): Option<string> {
    match Blank(modality)
    case None => None
    case Some(m) =>
      match locale.upper(m)
      case "P" => Some("TG103-T001")
      case "S" => Some("TG103-T003")
      case "V" => Some("TG103-T002")
      case _ => None
  }

  /** A join of a code against a catalog of unique codes. */
  function Find(m: map<string, int>, code: Option<string>): Option<int> {
    if code.Some? && code.value in m then Some(m[code.value]) else None
  }

  // ---------------------------------------------------------------- what a cell says

  ghost predicate Spaces(s: string) {
    forall i :: 0 <= i < |s| ==> s[i] == ' '
  }

  ghost predicate Edged(core: string) {
    core != "" && (core[0] == ' ' || core[|core| - 1] == ' ')
  }

  /** `core` with spaces around it, and none at its own edges. */
  ghost predicate Core(x: string, core: string) {
    !Edged(core) && exists l, r :: Spaces(l) && Spaces(r) && x == l + core + r
  }

  /** The cell is there and not blank, and this is its text. */
  ghost predicate Says(x: Option<string>, core: string) {
    x.Some? && core != "" && Core(x.value, core)
  }

  ghost predicate SaysNothing(x: Option<string>) {
    x == None || Spaces(x.value)
  }

  lemma {:induction false} LeftTrimmed(x: string) returns (l: string)
    ensures Spaces(l) && x == l + TrimLeft(x) && (TrimLeft(x) != "" ==> TrimLeft(x)[0] != ' ')
  {
    l := "";
    if x != "" && x[0] == ' ' {
      var rest := LeftTrimmed(x[1..]);
      l := [' '] + rest;
      assert x == [' '] + x[1..];
    }
  }

  lemma {:induction false} RightTrimmed(x: string) returns (r: string)
    ensures Spaces(r) && x == TrimRight(x) + r && TrimRight(x) <= x
    ensures TrimRight(x) != "" ==> TrimRight(x)[|TrimRight(x)| - 1] != ' '
  {
    r := "";
    if x != "" && x[|x| - 1] == ' ' {
      var rest := RightTrimmed(x[..|x| - 1]);
      r := rest + [' '];
      assert x == x[..|x| - 1] + [' '];
    }
  }

  lemma {:induction false} LeftOf(l: string, y: string)
    requires Spaces(l) && (y != "" ==> y[0] != ' ')
    ensures TrimLeft(l + y) == y
  {
    if l == "" {
      assert l + y == y;
    } else {
      assert (l + y)[1..] == l[1..] + y;
      LeftOf(l[1..], y);
    }
  }

  lemma {:induction false} RightOf(y: string, r: string)
    requires Spaces(r) && (y != "" ==> y[|y| - 1] != ' ')
    ensures TrimRight(y + r) == y
  {
    if r == "" {
      assert y + r == y;
    } else {
      assert (y + r)[..|y + r| - 1] == y + r[..|r| - 1];
      RightOf(y, r[..|r| - 1]);
    }
  }

  lemma TrimOfCore(l: string, core: string, r: string)
    requires Spaces(l) && Spaces(r) && !Edged(core)
    ensures Trim(l + core + r) == core
  {
    if core == "" {
      assert l + core + r == (l + r) + "" && "" + "" == "";
      LeftOf(l + r, "");
      RightOf("", "");
    } else {
      assert l + core + r == l + (core + r);
      LeftOf(l, core + r);
      RightOf(core, r);
    }
  }

  /** trim(x) is the one text that gives x when spaces are put around it. */
  lemma TrimExact(x: string, core: string)
    ensures Trim(x) == core <==> Core(x, core)
  {
    hide TrimLeft, TrimRight;
    var l := LeftTrimmed(x);
    var r := RightTrimmed(TrimLeft(x));
    assert x == l + Trim(x) + r;
    if l', r' :| Spaces(l') && Spaces(r') && x == l' + core + r' && !Edged(core) {
      TrimOfCore(l', core, r');
    }
  }

  lemma BlankExact(x: Option<string>, core: string)
    ensures Blank(x) == Some(core) <==> Says(x, core)
    ensures Blank(x) == None <==> SaysNothing(x)
  {
    hide Trim, Core;
    if x.Some? {
      TrimExact(x.value, core);
      TrimExact(x.value, Trim(x.value));
      NothingLeft(x.value);
    }
  }

  lemma NothingLeft(x: string)
    ensures Trim(x) == "" <==> Spaces(x)
  {
    TrimExact(x, "");
    if Spaces(x) {
      assert Spaces("") && x == x + "" + "";
    }
  }

  /** P, S and V, in either case where `upper` folds it. */
  ghost predicate Modality(x: Option<string>, locale: Locale, code: string) {
    exists m :: Says(x, m) &&
      ((locale.upper(m) == "P" && code == "TG103-T001") || (locale.upper(m) == "S" && code == "TG103-T003") ||
       (locale.upper(m) == "V" && code == "TG103-T002"))
  }

  lemma ModalityExact(x: Option<string>, locale: Locale, code: string)
    ensures ModalityCode(x, locale) == Some(code) <==> Modality(x, locale, code)
  {
    hide Says, Blank;
    forall m ensures Blank(x) == Some(m) <==> Says(x, m) {
      BlankExact(x, m);
    }
  }

  /** Some text that the cell says is a code of the catalog. */
  ghost predicate Names(x: Option<string>, catalog: map<string, int>) {
    exists c :: Says(x, c) && c in catalog
  }

  lemma NamesExact(x: Option<string>, catalog: map<string, int>)
    ensures Find(catalog, Blank(x)).Some? <==> Names(x, catalog)
  {
    hide Blank, Says;
    forall c ensures Blank(x) == Some(c) <==> Says(x, c) {
      BlankExact(x, c);
    }
  }

  /** Two cells say texts that fold together. */
  ghost predicate SayAlike(a: Option<string>, b: Option<string>, locale: Locale) {
    exists u, v :: Says(a, u) && Says(b, v) && locale.lower(u) == locale.lower(v)
  }

  lemma SayAlikeExact(a: Option<string>, b: Option<string>, locale: Locale)
    ensures SameFolded(a, b, locale) <==> SayAlike(a, b, locale)
  {
    hide Blank, Says;
    forall c ensures Blank(a) == Some(c) <==> Says(a, c) {
      BlankExact(a, c);
    }
    forall c ensures Blank(b) == Some(c) <==> Says(b, c) {
      BlankExact(b, c);
    }
    if SameFolded(a, b, locale) {
      assert Says(a, Blank(a).value) && Says(b, Blank(b).value);
    }
  }

  /** The cell says a text of at most this length. */
  ghost predicate SaysUpTo(x: Option<string>, n: nat) {
    exists c :: Says(x, c) && |c| <= n
  }

  lemma SaysUpToExact(x: Option<string>, n: nat)
    ensures Blank(x).Some? && |Blank(x).value| <= n <==> SaysUpTo(x, n)
  {
    hide Blank, Says;
    forall c ensures Blank(x) == Some(c) <==> Says(x, c) {
      BlankExact(x, c);
    }
    if Blank(x).Some? {
      assert Says(x, Blank(x).value);
    }
  }

  ghost predicate SaysModality(x: Option<string>, locale: Locale) {
    exists code :: Modality(x, locale, code)
  }

  lemma SaysModalityExact(x: Option<string>, locale: Locale)
    ensures ModalityCode(x, locale).Some? <==> SaysModality(x, locale)
  {
    hide ModalityCode, Modality;
    forall code ensures ModalityCode(x, locale) == Some(code) <==> Modality(x, locale, code) {
      ModalityExact(x, locale, code);
    }
    if ModalityCode(x, locale).Some? {
      assert Modality(x, locale, ModalityCode(x, locale).value);
    }
  }
}
