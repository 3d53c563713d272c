/**
 * src/libs/case.functions.ts: snake_case and camelCase keys, and the walkers that rename every key of
 * a nested value.
 */
module CaseKeys {
  import opened Wrappers

  predicate IsUpper(c: char) { 'A' <= c <= 'Z' }
  predicate IsLower(c: char) { 'a' <= c <= 'z' }
  predicate IsDigit(c: char) { '0' <= c <= '9' }

  /** The characters of the regular expressions' class [a-z0-9]. */
  predicate IsSegment(c: char) { IsLower(c) || IsDigit(c) }

  function ToUpper(c: char): char {
    if IsLower(c) then (c as int - 32) as char else c
  }

  function ToLower(c: char): char {
    if IsUpper(c) then (c as int + 32) as char else c
  }

  // ---------------------------------------------------------------- one key

  /** How many underscores a string starts with. */
  function Underscores(s: string): (n: nat)
    ensures n <= |s| && (forall i :: 0 <= i < n ==> s[i] == '_') && (n < |s| ==> s[n] != '_')
  {
    if s != "" && s[0] == '_' then 1 + Underscores(s[1..]) else 0
  }

  /** Replaces every match of /_+([a-z0-9])/g, leftmost and greedy, by its upper-cased character. */
  function SnakeToCamel(s: string): string
    decreases |s|
  {
    if s == "" then ""
    else if s[0] != '_' then [s[0]] + SnakeToCamel(s[1..])
    else
      var n := Underscores(s);
      if n < |s| && IsSegment(s[n]) then [ToUpper(s[n])] + SnakeToCamel(s[n + 1..])
      else s[..n] + SnakeToCamel(s[n..])
  }

  /** Replaces every match of /[A-Z]/g by an underscore and the lower-cased character. */
  function CamelToSnake(s: string): string {
    if s == "" then ""
    else (if IsUpper(s[0]) then ['_', ToLower(s[0])] else [s[0]]) + CamelToSnake(s[1..])
  }

  predicate IsAlnum(c: char) { IsUpper(c) || IsSegment(c) }

  /** No underscore is immediately followed by an ASCII letter or digit. */
  ghost predicate Clean(s: string) {
    forall i :: 0 <= i < |s| - 1 && s[i] == '_' ==> !IsAlnum(s[i + 1])
  }

  /** No underscore is immediately followed by a lower-case letter or digit. */
  ghost predicate NoSegments(s: string) {
    forall i :: 0 <= i < |s| - 1 && s[i] == '_' ==> !IsSegment(s[i + 1])
  }

  ghost predicate NoUpper(s: string) {
    forall i :: 0 <= i < |s| ==> !IsUpper(s[i])
  }

  /** One more piece in front of a string whose underscores are already harmless. */
  lemma SafePrefix(a: string, rest: string)
    requires a != "" && ((a == [a[0]] && a[0] != '_') || forall i :: 0 <= i < |a| ==> a[i] == '_')
    requires a[0] == '_' && rest != "" ==> !IsSegment(rest[0])
    ensures NoSegments(rest) ==> NoSegments(a + rest)
    ensures Clean(rest) && (a[0] == '_' && rest != "" ==> !IsAlnum(rest[0])) ==> Clean(a + rest)
  {}

  /** What SnakeToCamel puts out: no segment is left, and none of the underscores has a new neighbour. */
  lemma {:induction false} CamelHasNoSegments(s: string)
    ensures NoSegments(SnakeToCamel(s))
    ensures NoUpper(s) ==> Clean(SnakeToCamel(s))
    ensures if s == "" then SnakeToCamel(s) == ""
            else s[0] != '_' ==> SnakeToCamel(s) != "" && SnakeToCamel(s)[0] == s[0]
    decreases |s|
  {
    hide NoSegments, Clean;
    if s == "" {
      NothingSafe(SnakeToCamel(s));
    } else {
      var n := Underscores(s);
      if s[0] != '_' {
        CamelHasNoSegments(s[1..]);
        SafePrefix([s[0]], SnakeToCamel(s[1..]));
      } else if n < |s| && IsSegment(s[n]) {
        CamelHasNoSegments(s[n + 1..]);
        SafePrefix([ToUpper(s[n])], SnakeToCamel(s[n + 1..]));
      } else {
        CamelHasNoSegments(s[n..]);
        SafeRun(s, n, SnakeToCamel(s[n..]));
      }
    }
  }

  lemma SafeRun(s: string, n: nat, rest: string)
    requires 0 < n <= |s| && NoSegments(rest) && (NoUpper(s[n..]) ==> Clean(rest))
    requires forall i :: 0 <= i < n ==> s[i] == '_'
    requires if n == |s| then rest == "" else !IsSegment(s[n]) && rest != "" && rest[0] == s[n]
    ensures NoSegments(s[..n] + rest) && (NoUpper(s) ==> Clean(s[..n] + rest))
  {
    hide NoSegments, Clean, IsSegment, IsUpper;
    SafePrefix(s[..n], rest);
  }

  lemma NothingSafe(s: string)
    requires s == ""
    ensures NoSegments(s) && Clean(s)
  {}

  lemma {:induction false} CamelSame(s: string)
    requires NoSegments(s)
    ensures SnakeToCamel(s) == s
    decreases |s|
  {
    if s == "" {
      assert SnakeToCamel("") == "";
    } else {
      hide SnakeToCamel, NoSegments;
      var n := if s[0] == '_' then Underscores(s) else 1;
      var run, rest := s[..n], s[n..];
      SegmentsTail(s, n);
      CamelSame(rest);
      assert s == run + rest;
      if s[0] == '_' {
        CamelOfRun(run, rest);
      } else {
        assert run == [s[0]];
        CamelOfPlain(s[0], rest);
      }
    }
  }

  /** SnakeToCamel changes a key exactly when it has a segment to change. */
  lemma CamelFixpoint(s: string)
    ensures SnakeToCamel(s) == s <==> NoSegments(s)
  {
    CamelHasNoSegments(s);
    if NoSegments(s) {
      CamelSame(s);
    }
  }

  lemma SegmentsTail(s: string, n: nat)
    requires NoSegments(s) && n <= |s|
    ensures NoSegments(s[n..])
    ensures 0 < n < |s| && s[n - 1] == '_' ==> !IsSegment(s[n])
  {
    var t := s[n..];
    forall i | 0 <= i < |t| - 1 && t[i] == '_' ensures !IsSegment(t[i + 1]) {
      assert s[n + i] == '_' && s[(n + i) + 1] == t[i + 1];
    }
  }

  lemma CamelIdempotent(s: string)
    ensures SnakeToCamel(SnakeToCamel(s)) == SnakeToCamel(s)
  {
    CamelHasNoSegments(s);
    CamelFixpoint(SnakeToCamel(s));
  }

  lemma {:induction false} SnakeHasNoUpper(s: string)
    ensures NoUpper(CamelToSnake(s))
    ensures |CamelToSnake(s)| >= |s|
  {
    if s != "" {
      SnakeHasNoUpper(s[1..]);
    }
  }

  lemma {:induction false} SnakeFixpoint(s: string)
    ensures CamelToSnake(s) == s <==> NoUpper(s)
  {
    SnakeHasNoUpper(s);
    if s != "" && NoUpper(s) {
      SnakeFixpoint(s[1..]);
    }
  }

  lemma SnakeIdempotent(s: string)
    ensures CamelToSnake(CamelToSnake(s)) == CamelToSnake(s)
  {
    SnakeHasNoUpper(s);
    SnakeFixpoint(CamelToSnake(s));
  }

  // ---------------------------------------------------------------- round trips of one key

  lemma SnakeOfPlain(c: char, rest: string)
    requires !IsUpper(c)
    ensures CamelToSnake([c] + rest) == [c] + CamelToSnake(rest)
  {
    assert ([c] + rest)[1..] == rest;
  }

  lemma SnakeOfCapital(c: char, rest: string)
    requires IsUpper(c)
    ensures CamelToSnake([c] + rest) == ['_', ToLower(c)] + CamelToSnake(rest)
  {
    assert ([c] + rest)[1..] == rest;
  }

  lemma {:induction false} SnakeOfRun(run: string, rest: string)
    requires forall i :: 0 <= i < |run| ==> run[i] == '_'
    ensures CamelToSnake(run + rest) == run + CamelToSnake(rest)
  {
    hide CamelToSnake;
    if run == "" {
      assert run + rest == rest && run + CamelToSnake(rest) == CamelToSnake(rest);
    } else {
      SnakeOfRun(run[1..], rest);
      SnakeOfPlain('_', run[1..] + rest);
      assert run + rest == ['_'] + (run[1..] + rest);
      assert run + CamelToSnake(rest) == ['_'] + (run[1..] + CamelToSnake(rest));
    }
  }

  lemma CamelOfPlain(c: char, rest: string)
    requires c != '_'
    ensures SnakeToCamel([c] + rest) == [c] + SnakeToCamel(rest)
  {
    assert ([c] + rest)[1..] == rest;
  }

  lemma CamelOfSegment(c: char, rest: string)
    requires IsSegment(c)
    ensures SnakeToCamel(['_', c] + rest) == [ToUpper(c)] + SnakeToCamel(rest)
  {
    var s := ['_', c] + rest;
    UnderscoresOf("_", [c] + rest);
    assert s == "_" + ([c] + rest) && s[1] == c && s[2..] == rest;
  }

  lemma CamelOfRun(run: string, rest: string)
    requires run != "" && forall i :: 0 <= i < |run| ==> run[i] == '_'
    requires rest == "" || (rest[0] != '_' && !IsSegment(rest[0]))
    ensures SnakeToCamel(run + rest) == run + SnakeToCamel(rest)
  {
    var s := run + rest;
    UnderscoresOf(run, rest);
    assert s[..|run|] == run && s[|run|..] == rest;
  }

  lemma {:induction false} UnderscoresOf(a: string, rest: string)
    requires (forall i :: 0 <= i < |a| ==> a[i] == '_') && (rest == "" || rest[0] != '_')
    ensures Underscores(a + rest) == |a|
  {
    var n := Underscores(a + rest);
    assert forall i :: 0 <= i < |a| ==> (a + rest)[i] == '_';
    assert rest != "" ==> (a + rest)[|a|] != '_';
  }

  // ---------------------------------------------------------------- the regular expressions, read out

  /** Every ASCII capital, and nothing else, becomes an underscore and its small letter, wherever it stands. */
  lemma {:induction false} SnakeCharacters(a: string, c: char, rest: string)
    ensures CamelToSnake(a + [c] + rest) ==
            CamelToSnake(a) + (if 'A' <= c <= 'Z' then ['_', (c as int + 32) as char] else [c]) + CamelToSnake(rest)
  {
    hide CamelToSnake;
    if a == "" {
      SnakeOfNothing();
      assert a + [c] + rest == [c] + rest;
      SnakeOfCharacter(c, rest);
    } else {
      var tail := a[1..];
      SnakeCharacters(tail, c, rest);
      SnakeOfCharacter(a[0], tail + [c] + rest);
      SnakeOfCharacter(a[0], tail);
      assert a == [a[0]] + tail && a + [c] + rest == [a[0]] + (tail + [c] + rest);
    }
  }

  lemma SnakeOfNothing()
    ensures CamelToSnake("") == ""
  {}

  lemma SnakeOfCharacter(c: char, rest: string)
    ensures CamelToSnake([c] + rest) ==
            (if 'A' <= c <= 'Z' then ['_', (c as int + 32) as char] else [c]) + CamelToSnake(rest)
  {
    if IsUpper(c) {
      SnakeOfCapital(c, rest);
    } else {
      SnakeOfPlain(c, rest);
    }
  }

  /**
   * A run of underscores before a small letter or digit goes and the letter becomes a capital; any other
   * character stays as it is, and so does a run before it.
   */
  lemma CamelOfSegments(run: string, c: char, rest: string)
    requires c != '_' && forall i :: 0 <= i < |run| ==> run[i] == '_'
    ensures SnakeToCamel(run + [c] + rest) ==
            (if run != "" && 'a' <= c <= 'z' then [(c as int - 32) as char]
             else if run != "" && '0' <= c <= '9' then [c]
             else run + [c]) + SnakeToCamel(rest)
  {
    hide SnakeToCamel;
    assert run + [c] + rest == run + ([c] + rest);
    if run != "" && IsSegment(c) {
      CamelOfLongRun(run, c, rest);
    } else {
      CamelOfPlain(c, rest);
      if run != "" {
        CamelOfRun(run, [c] + rest);
        assert run + ([c] + SnakeToCamel(rest)) == run + [c] + SnakeToCamel(rest);
      } else {
        assert run + ([c] + rest) == [c] + rest && run + [c] == [c];
      }
    }
  }

  lemma CamelOfLongRun(run: string, c: char, rest: string)
    requires run != "" && IsSegment(c) && forall i :: 0 <= i < |run| ==> run[i] == '_'
    ensures SnakeToCamel(run + ([c] + rest)) == [ToUpper(c)] + SnakeToCamel(rest)
  {
    var s := run + ([c] + rest);
    UnderscoresOf(run, [c] + rest);
    assert s[|run|] == c && s[|run| + 1..] == rest;
  }

  /** What follows a character other than an underscore is converted on its own, down to a last run of them. */
  lemma {:induction false} CamelSplit(a: string, rest: string)
    requires a == "" || a[|a| - 1] != '_'
    ensures SnakeToCamel(a + rest) == SnakeToCamel(a) + SnakeToCamel(rest)
    ensures (forall i :: 0 <= i < |rest| ==> rest[i] == '_') ==> SnakeToCamel(rest) == rest
    decreases |a|
  {
    hide SnakeToCamel;
    CamelOfUnderscores(rest);
    if a == "" {
      CamelOfUnderscores(a);
      assert a + rest == rest && SnakeToCamel(a) == "";
    } else {
      var n := Underscores(a);
      var run, c, tail := a[..n], a[n], a[n + 1..];
      CamelSplit(tail, rest);
      CamelOfSegments(run, c, tail);
      CamelOfSegments(run, c, tail + rest);
      assert a == run + [c] + tail && a + rest == run + [c] + (tail + rest);
    }
  }

  lemma CamelOfUnderscores(run: string)
    ensures (forall i :: 0 <= i < |run| ==> run[i] == '_') ==> SnakeToCamel(run) == run
  {
    if run != "" && forall i :: 0 <= i < |run| ==> run[i] == '_' {
      hide SnakeToCamel;
      CamelOfRun(run, "");
      CamelOfNothing();
      assert run + "" == run;
    }
  }

  lemma CamelOfNothing()
    ensures SnakeToCamel("") == ""
  {}

  // ---------------------------------------------------------------- both directions of one key

  lemma SnakeStartsSame(s: string)
    ensures s != "" && !IsUpper(s[0]) ==> CamelToSnake(s) != "" && CamelToSnake(s)[0] == s[0]
    ensures s == "" ==> CamelToSnake(s) == ""
  {}

  lemma CleanTail(k: string, n: nat)
    requires Clean(k) && n <= |k|
    ensures Clean(k[n..])
    ensures 0 < n < |k| && k[n - 1] == '_' ==> !IsAlnum(k[n])
  {
    var t := k[n..];
    forall i | 0 <= i < |t| - 1 && t[i] == '_' ensures !IsAlnum(t[i + 1]) {
      assert k[n + i] == '_' && k[(n + i) + 1] == t[i + 1];
    }
  }

  lemma {:induction false} CamelAfterSnake(k: string)
    requires Clean(k)
    ensures SnakeToCamel(CamelToSnake(k)) == k
    decreases |k|
  {
    if k == "" {
      assert CamelToSnake("") == "" && SnakeToCamel("") == "";
    } else {
      hide CamelToSnake, SnakeToCamel, Clean;
      var n := if k[0] == '_' then Underscores(k) else 1;
      var run, rest := k[..n], CamelToSnake(k[n..]);
      CleanTail(k, n);
      CamelAfterSnake(k[n..]);
      assert k == run + k[n..];
      if IsUpper(k[0]) {
        assert run == [k[0]];
        SnakeOfCapital(k[0], k[1..]);
        CamelOfSegment(ToLower(k[0]), rest);
      } else if k[0] == '_' {
        SnakeOfRun(run, k[n..]);
        SnakeStartsSame(k[n..]);
        CamelOfRun(run, rest);
      } else {
        assert run == [k[0]];
        SnakeOfPlain(k[0], k[1..]);
        CamelOfPlain(k[0], rest);
      }
    }
  }

  /** camelCase to snake_case and back: exactly the keys without an underscore before a letter or digit. */
  lemma CamelRoundTrip(k: string)
    ensures SnakeToCamel(CamelToSnake(k)) == k <==> Clean(k)
  {
    SnakeHasNoUpper(k);
    CamelHasNoSegments(CamelToSnake(k));
    if Clean(k) {
      CamelAfterSnake(k);
    }
  }

  /** Single underscores before lower-case letters only, and no capital. */
  ghost predicate Snake(s: string) {
    && NoUpper(s)
    && (forall i :: 0 <= i < |s| - 1 && s[i] == '_' ==> !IsDigit(s[i + 1]))
    && (forall i :: 0 <= i < |s| - 2 && s[i] == '_' && s[i + 1] == '_' ==> !IsLower(s[i + 2]))
  }

  lemma {:induction false} SnakeOfClean(s: string)
    requires Clean(s)
    ensures Snake(CamelToSnake(s))
    ensures s != "" && !IsUpper(s[0]) ==> CamelToSnake(s)[0] == s[0]
    ensures s != "" && IsUpper(s[0]) ==>
              CamelToSnake(s)[0] == '_' && |CamelToSnake(s)| > 1 && IsLower(CamelToSnake(s)[1])
  {
    SnakeHasNoUpper(s);
    if s != "" {
      SnakeOfClean(s[1..]);
    }
  }

  lemma SnakeTail(k: string, n: nat)
    requires Snake(k) && n <= |k|
    ensures Snake(k[n..])
  {
    var t := k[n..];
    forall i | 0 <= i < |t| - 1 && t[i] == '_' ensures !IsDigit(t[i + 1]) {
      assert k[n + i] == '_' && k[n + (i + 1)] == t[i + 1];
    }
    forall i | 0 <= i < |t| - 2 && t[i] == '_' && t[i + 1] == '_' ensures !IsLower(t[i + 2]) {
      assert k[n + i] == '_' && k[(n + i) + 1] == '_' && k[(n + i) + 2] == t[i + 2];
    }
  }

  /** What a snake_case key may have after its leading run of underscores. */
  lemma AfterRun(k: string, n: nat)
    requires Snake(k) && n == Underscores(k) && 0 < n < |k|
    ensures !IsDigit(k[n]) && !IsUpper(k[n]) && (n > 1 ==> !IsLower(k[n]))
  {
    assert k[n - 1] == '_' && k[(n - 1) + 1] == k[n];
    if n > 1 {
      assert k[n - 2] == '_' && k[(n - 2) + 1] == '_' && k[(n - 2) + 2] == k[n];
    }
  }

  lemma {:induction false} SnakeAfterCamel(k: string)
    requires Snake(k)
    ensures CamelToSnake(SnakeToCamel(k)) == k
    decreases |k|
  {
    hide CamelToSnake, SnakeToCamel, Snake, NoUpper;
    if k == "" {
      SnakeAfterCamelEmpty();
    } else {
      var n := Underscores(k);
      if k[0] != '_' {
        SnakeTail(k, 1);
        SnakeAfterCamel(k[1..]);
        NoCapital(k);
        assert k == [k[0]] + k[1..];
        CamelOfPlain(k[0], k[1..]);
        SnakeOfPlain(k[0], SnakeToCamel(k[1..]));
      } else if n == 1 && n < |k| && IsLower(k[1]) {
        SnakeTail(k, 2);
        SnakeAfterCamel(k[2..]);
        assert k == ['_', k[1]] + k[2..];
        CamelOfSegment(k[1], k[2..]);
        SnakeOfCapital(ToUpper(k[1]), SnakeToCamel(k[2..]));
      } else {
        if n < |k| {
          AfterRun(k, n);
        }
        SnakeTail(k, n);
        SnakeAfterCamel(k[n..]);
        assert k == k[..n] + k[n..];
        CamelOfRun(k[..n], k[n..]);
        SnakeOfRun(k[..n], SnakeToCamel(k[n..]));
      }
    }
  }

  lemma SnakeAfterCamelEmpty()
    ensures CamelToSnake(SnakeToCamel("")) == ""
  {
    assert SnakeToCamel("") == "";
  }

  lemma NoCapital(k: string)
    requires Snake(k) && k != ""
    ensures !IsUpper(k[0])
  {}

  /** snake_case to camelCase and back, with the exact set of keys that survive. */
  lemma SnakeRoundTrip(k: string)
    ensures CamelToSnake(SnakeToCamel(k)) == k <==> Snake(k)
  {
    if Snake(k) {
      SnakeAfterCamel(k);
    }
    if CamelToSnake(SnakeToCamel(k)) == k {
      SnakeHasNoUpper(SnakeToCamel(k));
      CamelHasNoSegments(k);
      SnakeOfClean(SnakeToCamel(k));
    }
  }

  // ---------------------------------------------------------------- the SQL helper

  /** regexp_replace(k, '([A-Z])', '_\1', 'g'). */
  function MarkUpper(s: string): string {
    if s == "" then "" else (if IsUpper(s[0]) then ['_', s[0]] else [s[0]]) + MarkUpper(s[1..])
  }

  /** lower(), which outside ASCII depends on the locale. */
  function LowerAll(s: string, other: char -> char): string {
    if s == "" then ""
    else [if s[0] < '\U{0080}' then ToLower(s[0]) else other(s[0])] + LowerAll(s[1..], other)
  }

  lemma MarkOf(c: char, rest: string)
    ensures MarkUpper([c] + rest) == (if IsUpper(c) then ['_', c] else [c]) + MarkUpper(rest)
  {
    assert ([c] + rest)[1..] == rest;
  }

  lemma LowerOf(c: char, rest: string, other: char -> char)
    requires c < '\U{0080}'
    ensures LowerAll([c] + rest, other) == [ToLower(c)] + LowerAll(rest, other)
  {
    assert ([c] + rest)[1..] == rest;
  }

  lemma SqlCharacter(c: char, tail: string, other: char -> char)
    requires c < '\U{0080}' && LowerAll(MarkUpper(tail), other) == CamelToSnake(tail)
    ensures LowerAll(MarkUpper([c] + tail), other) == CamelToSnake([c] + tail)
  {
    hide LowerAll, MarkUpper, CamelToSnake;
    var rest := MarkUpper(tail);
    MarkOf(c, tail);
    LowerOf(c, rest, other);
    if IsUpper(c) {
      LowerOf('_', [c] + rest, other);
      SnakeOfCapital(c, tail);
      assert ['_', c] + rest == ['_'] + ([c] + rest);
      assert ['_', ToLower(c)] + CamelToSnake(tail) == ['_'] + ([ToLower(c)] + CamelToSnake(tail));
    } else {
      SnakeOfPlain(c, tail);
    }
  }

  /** snake_case_jsonb_keys renames an ASCII key as camelToSnake does. */
  lemma {:induction false} SqlAgrees(k: string, other: char -> char)
    requires forall i :: 0 <= i < |k| ==> k[i] < '\U{0080}'
    ensures LowerAll(MarkUpper(k), other) == CamelToSnake(k)
  {
    if k == "" {
      assert MarkUpper("") == LowerAll("", other) == CamelToSnake("") == "";
    } else {
      hide LowerAll, MarkUpper, CamelToSnake;
      SqlAgrees(k[1..], other);
      SqlCharacter(k[0], k[1..], other);
      assert k == [k[0]] + k[1..];
    }
  }

  // ---------------------------------------------------------------- nested values

  /** Leaf: anything that is not an array or a plain object. Entries are in insertion order. */
  datatype Json = Leaf(text: string) | Arr(items: seq<Json>) | Obj(entries: seq<Entry>)
  datatype Entry = Entry(key: string, value: Json)

  /** result[key] = value: an existing key keeps its place. */
  function Put(entries: seq<Entry>, key: string, value: Json): seq<Entry> {
    if entries == [] then [Entry(key, value)]
    else if entries[0].key == key then [Entry(key, value)] + entries[1..]
    else [entries[0]] + Put(entries[1..], key, value)
  }

  function Walk(v: Json, f: string -> string): Json {
    match v
    case Leaf(_) => v
    case Arr(items) => Arr(WalkItems(items, f))
    case Obj(entries) => Obj(WalkEntries(entries, f))
  }

  function WalkItems(items: seq<Json>, f: string -> string): seq<Json> {
    if items == [] then [] else WalkItems(items[..|items| - 1], f) + [Walk(items[|items| - 1], f)]
  }

  function WalkEntries(entries: seq<Entry>, f: string -> string): seq<Entry> {
    if entries == [] then []
    else
      var e := entries[|entries| - 1];
      Put(WalkEntries(entries[..|entries| - 1], f), f(e.key), Walk(e.value, f))
  }

  method CamelizeKeys(v: Json) returns (r: Json)
    ensures r == Walk(v, SnakeToCamel)
    decreases v
  {
    match v
    case Leaf(_) => return v;
    case Arr(items) =>
      var mapped: seq<Json> := [];
      for n := 0 to |items|
        invariant mapped == WalkItems(items[..n], SnakeToCamel)
      {
        assert items[..n + 1][..n] == items[..n];
        var item := CamelizeKeys(items[n]);
        mapped := mapped + [item];
      }
      assert items[..|items|] == items;
      return Arr(mapped);
    case Obj(entries) =>
      var result: seq<Entry> := [];
      for n := 0 to |entries|
        invariant result == WalkEntries(entries[..n], SnakeToCamel)
      {
        assert entries[..n + 1][..n] == entries[..n];
        var nested := CamelizeKeys(entries[n].value);
        result := Put(result, SnakeToCamel(entries[n].key), nested);
      }
      assert entries[..|entries|] == entries;
      return Obj(result);
  }

  method SnakeizeKeys(v: Json) returns (r: Json)
    ensures r == Walk(v, CamelToSnake)
    decreases v
  {
    match v
    case Leaf(_) => return v;
    case Arr(items) =>
      var mapped: seq<Json> := [];
      for n := 0 to |items|
        invariant mapped == WalkItems(items[..n], CamelToSnake)
      {
        assert items[..n + 1][..n] == items[..n];
        var item := SnakeizeKeys(items[n]);
        mapped := mapped + [item];
      }
      assert items[..|items|] == items;
      return Arr(mapped);
    case Obj(entries) =>
      var result: seq<Entry> := [];
      for n := 0 to |entries|
        invariant result == WalkEntries(entries[..n], CamelToSnake)
      {
        assert entries[..n + 1][..n] == entries[..n];
        var nested := SnakeizeKeys(entries[n].value);
        result := Put(result, CamelToSnake(entries[n].key), nested);
      }
      assert entries[..|entries|] == entries;
      return Obj(result);
  }

  // ---------------------------------------------------------------- colliding keys

  /** The last entry with a key. */
  ghost predicate LastWith(entries: seq<Entry>, f: string -> string, key: string, i: nat) {
    i < |entries| && f(entries[i].key) == key && forall j :: i < j < |entries| ==> f(entries[j].key) != key
  }

  lemma {:induction false} PutValues(entries: seq<Entry>, key: string, value: Json, e: Entry)
    requires Distinct(entries)
    ensures e in Put(entries, key, value) <==> (if e.key == key then e.value == value else e in entries)
  {
    if entries != [] && entries[0].key != key {
      PutValues(entries[1..], key, value, e);
      assert entries == [entries[0]] + entries[1..];
    } else if entries != [] {
      assert forall i :: 0 < i < |entries| ==> entries[i].key != entries[0].key;
      assert entries == [entries[0]] + entries[1..];
    }
  }

  lemma {:induction false} PutOrder(entries: seq<Entry>, key: string, value: Json)
    requires Distinct(entries)
    ensures var p := Put(entries, key, value);
      && |entries| <= |p| <= |entries| + 1 && (forall i :: 0 <= i < |entries| ==> p[i].key == entries[i].key)
      && (|p| == |entries| + 1 <==> forall i :: 0 <= i < |entries| ==> entries[i].key != key)
      && (|p| == |entries| + 1 ==> p[|entries|] == Entry(key, value))
  {
    if entries != [] && entries[0].key != key {
      PutOrder(entries[1..], key, value);
    }
  }

  /**
   * Where renamed keys collide, the value of the last entry is kept: an object has an entry exactly for each
   * renamed key, with the walked value of the last entry that was renamed to it.
   */
  lemma {:induction false} LastWins(entries: seq<Entry>, f: string -> string, e: Entry)
    ensures Distinct(WalkEntries(entries, f))
    ensures e in WalkEntries(entries, f) <==>
            exists i: nat :: LastWith(entries, f, e.key, i) && e.value == Walk(entries[i].value, f)
  {
    hide Distinct, Put, Walk, LastWith;
    if entries == [] {
      NothingLast(entries, f, e.key);
    } else {
      var n := |entries| - 1;
      var init, last := entries[..n], entries[n];
      LastWins(init, f, e);
      PutMembers(WalkEntries(init, f), f(last.key), Walk(last.value, f));
      PutValues(WalkEntries(init, f), f(last.key), Walk(last.value, f), e);
      LastOrEarlier(entries, f, e.key);
      OnlyWithin(init, f, e.key);
      assert forall i: nat :: i < n ==> init[i] == entries[i];
      if f(last.key) == e.key {
        assert LastWith(entries, f, e.key, n);
      } else {
        forall i: nat | i < n ensures LastWith(entries, f, e.key, i) <==> LastWith(init, f, e.key, i) {}
        if i: nat :| LastWith(init, f, e.key, i) && e.value == Walk(init[i].value, f) {
          assert LastWith(entries, f, e.key, i);
        }
      }
    }
  }

  lemma NothingLast(entries: seq<Entry>, f: string -> string, key: string)
    requires entries == []
    ensures Distinct(WalkEntries(entries, f))
    ensures forall i: nat :: !LastWith(entries, f, key, i)
  {}

  lemma OnlyWithin(entries: seq<Entry>, f: string -> string, key: string)
    ensures forall i: nat :: LastWith(entries, f, key, i) ==> i < |entries|
  {}

  lemma LastOrEarlier(entries: seq<Entry>, f: string -> string, key: string)
    requires entries != []
    ensures var n := |entries| - 1;
      forall i: nat :: LastWith(entries, f, key, i) <==>
        if f(entries[n].key) == key then i == n else i < n && LastWith(entries[..n], f, key, i)
  {}

  /** The position of the first entry that is renamed to key, or the number of entries. */
  function First(entries: seq<Entry>, f: string -> string, key: string): (r: nat)
    ensures r <= |entries| && (r < |entries| ==> f(entries[r].key) == key)
    ensures forall i :: 0 <= i < r ==> f(entries[i].key) != key
  {
    if entries == [] then 0
    else
      var n := |entries| - 1;
      var r := First(entries[..n], f, key);
      if r < n || f(entries[n].key) == key then r else n + 1
  }

  lemma {:induction false} LastFrom(entries: seq<Entry>, f: string -> string, key: string, r: nat) returns (i: nat)
    requires r < |entries| && f(entries[r].key) == key
    ensures LastWith(entries, f, key, i)
    decreases |entries| - r
  {
    if j: nat :| r < j < |entries| && f(entries[j].key) == key {
      i := LastFrom(entries, f, key, j);
    } else {
      i := r;
    }
  }

  /** A renamed key that the object lacks is the key of no entry. */
  lemma KeysKept(entries: seq<Entry>, f: string -> string, key: string)
    requires forall a :: 0 <= a < |WalkEntries(entries, f)| ==> WalkEntries(entries, f)[a].key != key
    ensures First(entries, f, key) == |entries|
  {
    hide First;
    var r := First(entries, f, key);
    if r < |entries| {
      var i := LastFrom(entries, f, key, r);
      LastWins(entries, f, Entry(key, Walk(entries[i].value, f)));
      assert false;
    }
  }

  lemma FirstWithin(entries: seq<Entry>, f: string -> string, e: Entry)
    requires e in WalkEntries(entries, f)
    ensures First(entries, f, e.key) < |entries|
  {
    hide First, WalkEntries;
    LastWins(entries, f, e);
  }

  /** An object's keys come in the order of the first entries that were renamed to them. */
  lemma {:induction false} FirstPlaces(entries: seq<Entry>, f: string -> string, a: nat, b: nat)
    requires a < b < |WalkEntries(entries, f)|
    ensures var w := WalkEntries(entries, f);
      First(entries, f, w[a].key) < First(entries, f, w[b].key) < |entries|
  {
    hide Put, Walk, Distinct;
    var n := |entries| - 1;
    var init, last := entries[..n], entries[n];
    var before, after := WalkEntries(init, f), WalkEntries(entries, f);
    LastWins(init, f, last);
    PutOrder(before, f(last.key), Walk(last.value, f));
    FirstWithin(init, f, before[a]);
    if b < |before| {
      FirstPlaces(init, f, a, b);
    } else {
      KeysKept(init, f, f(last.key));
    }
  }

  // ---------------------------------------------------------------- properties of every key

  ghost predicate Distinct(entries: seq<Entry>) {
    forall i, j :: 0 <= i < j < |entries| ==> entries[i].key != entries[j].key
  }

  /** An object never has a key twice. */
  ghost predicate Proper(v: Json) {
    match v
    case Leaf(_) => true
    case Arr(items) => forall i :: 0 <= i < |items| ==> Proper(items[i])
    case Obj(entries) => Distinct(entries) && forall i :: 0 <= i < |entries| ==> Proper(entries[i].value)
  }

  ghost predicate EveryKey(v: Json, p: string -> bool) {
    match v
    case Leaf(_) => true
    case Arr(items) => forall i :: 0 <= i < |items| ==> EveryKey(items[i], p)
    case Obj(entries) => forall i :: 0 <= i < |entries| ==> p(entries[i].key) && EveryKey(entries[i].value, p)
  }

  lemma {:induction false} PutNew(entries: seq<Entry>, key: string, value: Json)
    requires forall i :: 0 <= i < |entries| ==> entries[i].key != key
    ensures Put(entries, key, value) == entries + [Entry(key, value)]
  {
    if entries != [] {
      PutNew(entries[1..], key, value);
      assert entries == [entries[0]] + entries[1..];
    }
  }

  /** Put keeps what holds of all entries, and never makes a key appear twice. */
  lemma {:induction false} PutMembers(entries: seq<Entry>, key: string, value: Json)
    requires Distinct(entries)
    ensures Distinct(Put(entries, key, value))
    ensures forall e :: e in Put(entries, key, value) ==> e == Entry(key, value) || e in entries
  {
    if entries != [] && entries[0].key != key {
      PutMembers(entries[1..], key, value);
      var p := Put(entries[1..], key, value);
      assert forall i :: 0 <= i < |p| ==> p[i] in p;
      assert forall e :: e in entries[1..] ==> e in entries;
    }
  }

  /** Keys that satisfy `p` are renamed to keys that satisfy `q`, and objects stay proper. */
  lemma {:induction false} WalkKeys(v: Json, f: string -> string, p: string -> bool, q: string -> bool)
    requires EveryKey(v, p) && forall k :: p(k) ==> q(f(k))
    ensures Proper(Walk(v, f)) && EveryKey(Walk(v, f), q)
    decreases v, 1
  {
    match v
    case Leaf(_) =>
    case Arr(items) =>
      WalkItemsKeys(items, f, p, q);
      assert Walk(v, f) == Arr(WalkItems(items, f));
    case Obj(entries) =>
      var w := WalkEntries(entries, f);
      WalkEntriesKeys(entries, f, p, q);
      forall i | 0 <= i < |w| ensures EntryOk(w[i], q) { assert w[i] in w; }
      assert Walk(v, f) == Obj(w);
  }

  lemma {:induction false} WalkItemsKeys(items: seq<Json>, f: string -> string, p: string -> bool, q: string -> bool)
    requires forall i :: 0 <= i < |items| ==> EveryKey(items[i], p)
    requires forall k :: p(k) ==> q(f(k))
    ensures forall w :: w in WalkItems(items, f) ==> Proper(w) && EveryKey(w, q)
    decreases items, 0
  {
    if items != [] {
      WalkItemsKeys(items[..|items| - 1], f, p, q);
      WalkKeys(items[|items| - 1], f, p, q);
    }
  }

  ghost predicate EntryOk(e: Entry, q: string -> bool) {
    q(e.key) && Proper(e.value) && EveryKey(e.value, q)
  }

  lemma {:induction false} WalkEntriesKeys(entries: seq<Entry>, f: string -> string, p: string -> bool,
                                           q: string -> bool)
    requires forall i :: 0 <= i < |entries| ==> p(entries[i].key) && EveryKey(entries[i].value, p)
    requires forall k :: p(k) ==> q(f(k))
    ensures Distinct(WalkEntries(entries, f))
    ensures forall e :: e in WalkEntries(entries, f) ==> EntryOk(e, q)
    decreases entries, 0
  {
    if entries != [] {
      var n := |entries| - 1;
      var e, rest := entries[n], WalkEntries(entries[..n], f);
      WalkEntriesKeys(entries[..n], f, p, q);
      WalkKeys(e.value, f, p, q);
      PutMembers(rest, f(e.key), Walk(e.value, f));
    }
  }

  /** Renaming with `f` and then with `g` gives the value back when `g` inverts `f` on all its keys. */
  lemma {:induction false} WalkBack(v: Json, f: string -> string, g: string -> string, p: string -> bool)
    requires Proper(v) && EveryKey(v, p) && forall k :: p(k) ==> g(f(k)) == k
    ensures Walk(Walk(v, f), g) == v
    decreases v, 1
  {
    match v
    case Leaf(_) =>
    case Arr(items) => WalkItemsBack(items, f, g, p);
    case Obj(entries) => WalkEntriesBack(entries, f, g, p);
  }

  lemma {:induction false} WalkItemsBack(items: seq<Json>, f: string -> string, g: string -> string, p: string -> bool)
    requires forall i :: 0 <= i < |items| ==> Proper(items[i]) && EveryKey(items[i], p)
    requires forall k :: p(k) ==> g(f(k)) == k
    ensures WalkItems(WalkItems(items, f), g) == items
    decreases items, 0
  {
    if items != [] {
      var n := |items| - 1;
      WalkItemsBack(items[..n], f, g, p);
      WalkBack(items[n], f, g, p);
      var w := WalkItems(items[..n], f);
      assert (w + [Walk(items[n], f)])[..|w|] == w;
      assert items == items[..n] + [items[n]];
    }
  }

  lemma {:induction false} WalkEntriesBack(entries: seq<Entry>, f: string -> string, g: string -> string,
                                           p: string -> bool)
    requires Distinct(entries) && forall i :: 0 <= i < |entries| ==> EntryOk(entries[i], p)
    requires forall k :: p(k) ==> g(f(k)) == k
    ensures |WalkEntries(entries, f)| == |entries|
    ensures forall i :: 0 <= i < |entries| ==> WalkEntries(entries, f)[i].key == f(entries[i].key)
    ensures WalkEntries(WalkEntries(entries, f), g) == entries
    decreases entries, 0
  {
    if entries != [] {
      var n := |entries| - 1;
      var init, e := entries[..n], entries[n];
      WalkEntriesBack(init, f, g, p);
      WalkBack(e.value, f, g, p);
      var w := WalkEntries(init, f);
      forall i | 0 <= i < |w| ensures w[i].key != f(e.key) {
        assert g(f(entries[i].key)) == entries[i].key != e.key == g(f(e.key));
      }
      PutNew(w, f(e.key), Walk(e.value, f));
      assert (w + [Entry(f(e.key), Walk(e.value, f))])[..|w|] == w;
      PutNew(init, e.key, e.value);
      assert entries == init + [e];
    }
  }

  predicate Anything(k: string) { true }
  predicate Survives(k: string) { SnakeToCamel(CamelToSnake(k)) == k }
  predicate SnakeFixed(k: string) { CamelToSnake(k) == k }
  predicate CamelFixed(k: string) { SnakeToCamel(k) == k }

  /** camelizeKeys undoes snakeizeKeys exactly on values all of whose keys, at any depth, survive. */
  lemma NestedRoundTrip(v: Json)
    requires Proper(v)
    ensures Walk(Walk(v, CamelToSnake), SnakeToCamel) == v <==> EveryKey(v, Survives)
  {
    hide Walk, EveryKey, CamelToSnake, SnakeToCamel, Proper;
    if EveryKey(v, Survives) {
      WalkBack(v, CamelToSnake, SnakeToCamel, Survives);
    }
    AnyKey(v);
    forall k ensures SnakeFixed(CamelToSnake(k)) { SnakeIdempotent(k); }
    WalkKeys(v, CamelToSnake, Anything, SnakeFixed);
    forall k | SnakeFixed(k) ensures Survives(SnakeToCamel(k)) {
      SnakeFixpoint(k);
      CamelHasNoSegments(k);
      CamelRoundTrip(SnakeToCamel(k));
    }
    WalkKeys(Walk(v, CamelToSnake), SnakeToCamel, SnakeFixed, Survives);
  }

  /** snakeizeKeys undoes camelizeKeys exactly on values all of whose keys, at any depth, are snake_case. */
  lemma NestedWriteBack(v: Json)
    requires Proper(v)
    ensures Walk(Walk(v, SnakeToCamel), CamelToSnake) == v <==> EveryKey(v, Snake)
  {
    hide Walk, EveryKey, CamelToSnake, SnakeToCamel, Proper, Snake, Clean, NoUpper;
    if EveryKey(v, Snake) {
      forall k | Snake(k) ensures CamelToSnake(SnakeToCamel(k)) == k { SnakeAfterCamel(k); }
      WalkBack(v, SnakeToCamel, CamelToSnake, Snake);
    }
    if Walk(Walk(v, SnakeToCamel), CamelToSnake) == v {
      AnyKey(Walk(v, SnakeToCamel));
      forall k ensures NoUpper(CamelToSnake(k)) { SnakeHasNoUpper(k); }
      WalkKeys(Walk(v, SnakeToCamel), CamelToSnake, Anything, NoUpper);
      forall k | NoUpper(k) ensures Clean(SnakeToCamel(k)) { CamelHasNoSegments(k); }
      WalkKeys(v, SnakeToCamel, NoUpper, Clean);
      forall k | Clean(k) ensures Snake(CamelToSnake(k)) { SnakeOfClean(k); }
      WalkKeys(Walk(v, SnakeToCamel), CamelToSnake, Clean, Snake);
    }
  }

  lemma {:induction false} AnyKey(v: Json)
    ensures EveryKey(v, Anything)
  {
    match v
    case Leaf(_) =>
    case Arr(items) => forall i | 0 <= i < |items| ensures EveryKey(items[i], Anything) { AnyKey(items[i]); }
    case Obj(entries) =>
      forall i | 0 <= i < |entries| ensures Anything(entries[i].key) && EveryKey(entries[i].value, Anything) {
        AnyKey(entries[i].value);
      }
  }

  lemma {:induction false} WalkFixed(v: Json, f: string -> string, p: string -> bool)
    requires Proper(v) && EveryKey(v, p) && forall k :: p(k) ==> f(k) == k
    ensures Walk(v, f) == v
    decreases v, 1
  {
    match v
    case Leaf(_) =>
    case Arr(items) => WalkItemsFixed(items, f, p);
    case Obj(entries) => WalkEntriesFixed(entries, f, p);
  }

  lemma {:induction false} WalkItemsFixed(items: seq<Json>, f: string -> string, p: string -> bool)
    requires forall i :: 0 <= i < |items| ==> Proper(items[i]) && EveryKey(items[i], p)
    requires forall k :: p(k) ==> f(k) == k
    ensures WalkItems(items, f) == items
    decreases items, 0
  {
    if items != [] {
      WalkItemsFixed(items[..|items| - 1], f, p);
      WalkFixed(items[|items| - 1], f, p);
      assert items == items[..|items| - 1] + [items[|items| - 1]];
    }
  }

  lemma {:induction false} WalkEntriesFixed(entries: seq<Entry>, f: string -> string, p: string -> bool)
    requires Distinct(entries) && forall i :: 0 <= i < |entries| ==> EntryOk(entries[i], p)
    requires forall k :: p(k) ==> f(k) == k
    ensures WalkEntries(entries, f) == entries
    decreases entries, 0
  {
    if entries != [] {
      var n := |entries| - 1;
      WalkEntriesFixed(entries[..n], f, p);
      WalkFixed(entries[n].value, f, p);
      PutNew(entries[..n], entries[n].key, entries[n].value);
      assert entries == entries[..n] + [entries[n]];
    }
  }

  /** Both walkers, applied to their own result, change nothing - whatever keys may have collided. */
  lemma WalkersIdempotent(v: Json)
    ensures Walk(Walk(v, SnakeToCamel), SnakeToCamel) == Walk(v, SnakeToCamel)
    ensures Walk(Walk(v, CamelToSnake), CamelToSnake) == Walk(v, CamelToSnake)
  {
    hide Walk, EveryKey, CamelToSnake, SnakeToCamel, Proper;
    AnyKey(v);
    forall k ensures CamelFixed(SnakeToCamel(k)) { CamelIdempotent(k); }
    WalkKeys(v, SnakeToCamel, Anything, CamelFixed);
    WalkFixed(Walk(v, SnakeToCamel), SnakeToCamel, CamelFixed);
    forall k ensures SnakeFixed(CamelToSnake(k)) { SnakeIdempotent(k); }
    WalkKeys(v, CamelToSnake, Anything, SnakeFixed);
    WalkFixed(Walk(v, CamelToSnake), CamelToSnake, SnakeFixed);
  }
}
