/** The column-name sanitiser applied before the upload (main.py:289-295). */
module Sanitiser {

  /** `s.replace(target, repl)` for a one-character `target`. */
  function ReplaceChar(s: string, target: char, repl: string): string {
    if s == [] then []
    else (if s[0] == target then repl else [s[0]]) + ReplaceChar(s[1..], target, repl)
  }

  /** Every character of the result is a kept character of `s` other than
      `target`, or comes from `repl`. */
  lemma {:induction false} ReplaceCharChars(s: string, target: char, repl: string)
    ensures forall i :: 0 <= i < |ReplaceChar(s, target, repl)| ==>
              (ReplaceChar(s, target, repl)[i] in s && ReplaceChar(s, target, repl)[i] != target)
              || ReplaceChar(s, target, repl)[i] in repl
  {
    if s != [] {
      var h := if s[0] == target then repl else [s[0]];
      var rest := ReplaceChar(s[1..], target, repl);
      ReplaceCharChars(s[1..], target, repl);
      var r := h + rest;
      forall i | 0 <= i < |r| ensures (r[i] in s && r[i] != target) || r[i] in repl {
        if i >= |h| {
          var j := i - |h|;
          assert r[i] == rest[j];
          assert (rest[j] in s[1..] && rest[j] != target) || rest[j] in repl;
          assert rest[j] in s[1..] ==> rest[j] in s;
        } else if s[0] == target {
          assert r[i] == repl[i];
        } else {
          assert r[i] == s[0];
        }
      }
    }
  }

  /** Replacing a character that does not occur changes nothing. */
  lemma {:induction false} ReplaceAbsent(s: string, target: char, repl: string)
    requires target !in s
    ensures ReplaceChar(s, target, repl) == s
  {
    if s != [] {
      ReplaceAbsent(s[1..], target, repl);
    }
  }

  /** The replacement works character by character. */
  lemma {:induction false} ReplaceCharAppend(a: string, b: string, target: char, repl: string)
    ensures ReplaceChar(a + b, target, repl) == ReplaceChar(a, target, repl) + ReplaceChar(b, target, repl)
  {
    if a == [] {
      assert a + b == b;
    } else {
      assert (a + b)[0] == a[0] && (a + b)[1..] == a[1..] + b;
      ReplaceCharAppend(a[1..], b, target, repl);
      var h := if a[0] == target then repl else [a[0]];
      calc {
        ReplaceChar(a + b, target, repl);
        h + ReplaceChar(a[1..] + b, target, repl);
        h + (ReplaceChar(a[1..], target, repl) + ReplaceChar(b, target, repl));
        (h + ReplaceChar(a[1..], target, repl)) + ReplaceChar(b, target, repl);
      }
    }
  }

  lemma ReplaceCharSingle(c: char, target: char, repl: string)
    ensures ReplaceChar([c], target, repl) == if c == target then repl else [c]
  {
    assert [c][1..] == [];
  }

  /** The five replacements, in their order. */
  function Replaced(s: string): string {
    ReplaceChar(ReplaceChar(ReplaceChar(ReplaceChar(ReplaceChar(s, ' ', "_"), '(', ""), ')', ""), '/', "_"), '-', "_")
  }

  lemma ReplacedAppend(a: string, b: string)
    ensures Replaced(a + b) == Replaced(a) + Replaced(b)
  {
    var a1, b1 := ReplaceChar(a, ' ', "_"), ReplaceChar(b, ' ', "_");
    var a2, b2 := ReplaceChar(a1, '(', ""), ReplaceChar(b1, '(', "");
    var a3, b3 := ReplaceChar(a2, ')', ""), ReplaceChar(b2, ')', "");
    var a4, b4 := ReplaceChar(a3, '/', "_"), ReplaceChar(b3, '/', "_");
    ReplaceCharAppend(a, b, ' ', "_");
    ReplaceCharAppend(a1, b1, '(', "");
    ReplaceCharAppend(a2, b2, ')', "");
    ReplaceCharAppend(a3, b3, '/', "_");
    ReplaceCharAppend(a4, b4, '-', "_");
  }

  /** What the replacements make of one character. */
  lemma ReplacedSingle(c: char)
    ensures Replaced([c]) == if c == ' ' || c == '/' || c == '-' then "_"
                             else if c == '(' || c == ')' then "" else [c]
  {
    ReplaceCharSingle(c, ' ', "_");
    if c == ' ' || c == '/' || c == '-' {
      var u := if c == ' ' then "_" else [c];
      ReplaceCharSingle(u[0], '(', "");
      ReplaceCharSingle(u[0], ')', "");
      ReplaceCharSingle(u[0], '/', "_");
      ReplaceCharSingle('_', '-', "_");
      if c == '-' {
        ReplaceCharSingle('-', '-', "_");
      }
    } else if c == '(' {
      ReplaceCharSingle('(', '(', "");
      assert ReplaceChar("", ')', "") == "";
      assert ReplaceChar("", '/', "_") == "";
      assert ReplaceChar("", '-', "_") == "";
    } else {
      ReplaceCharSingle(c, '(', "");
      ReplaceCharSingle(c, ')', "");
      if c == ')' {
        assert ReplaceChar("", '/', "_") == "";
        assert ReplaceChar("", '-', "_") == "";
      } else {
        ReplaceCharSingle(c, '/', "_");
        ReplaceCharSingle(c, '-', "_");
      }
    }
  }

  /** A string without a space, parenthesis, slash or hyphen is not rewritten. */
  lemma ReplacedPlain(s: string)
    requires ' ' !in s && '(' !in s && ')' !in s && '/' !in s && '-' !in s
    ensures Replaced(s) == s
  {
    ReplaceAbsent(s, ' ', "_");
    ReplaceAbsent(s, '(', "");
    ReplaceAbsent(s, ')', "");
    ReplaceAbsent(s, '/', "_");
    ReplaceAbsent(s, '-', "_");
  }

  /** `s.split(sep)`: the pieces between separators, empty ones included. */
  function Split(s: string, sep: char): (parts: seq<string>)
    ensures |parts| >= 1
  {
    if s == [] then [[]]
    else
      var rest := Split(s[1..], sep);
      if s[0] == sep then [[]] + rest else [[s[0]] + rest[0]] + rest[1..]
  }

  /** `filter(None, parts)`: drops the empty pieces. */
  function NonEmpty(parts: seq<string>): (r: seq<string>)
    ensures forall k :: 0 <= k < |r| ==> r[k] != [] && r[k] in parts
  {
    if parts == [] then []
    else (if parts[0] != [] then [parts[0]] else []) + NonEmpty(parts[1..])
  }

  /** `sep.join(parts)`. */
  function Join(parts: seq<string>, sep: char): string {
    if parts == [] then []
    else if |parts| == 1 then parts[0]
    else parts[0] + [sep] + Join(parts[1..], sep)
  }

  /** `str.upper()` on one character (ASCII letters only). */
  function ToUpper(c: char): char {
    if 'a' <= c <= 'z' then (c as int - 32) as char else c
  }

  function Upper(s: string): (r: string)
    ensures |r| == |s|
  {
    seq(|s|, i requires 0 <= i < |s| => ToUpper(s[i]))
  }

  /** The sanitised column name. */
  function Sanitise(s: string): string {
    Upper(Join(NonEmpty(Split(Replaced(s), '_')), '_'))
  }

  /** Characters a sanitised name never contains. */
  predicate Forbidden(c: char) {
    c == ' ' || c == '(' || c == ')' || c == '/' || c == '-' || 'a' <= c <= 'z'
  }

  /** No separator at either end and never two in a row. */
  predicate NoStraySeparators(s: string, sep: char) {
    && (s != [] ==> s[0] != sep && s[|s| - 1] != sep)
    && forall i :: 0 <= i < |s| - 1 ==> !(s[i] == sep && s[i + 1] == sep)
  }

  predicate Clean(s: string) {
    && (forall i :: 0 <= i < |s| ==> !Forbidden(s[i]))
    && NoStraySeparators(s, '_')
  }

  lemma {:induction false} SplitChars(s: string, sep: char, k: nat, j: nat)
    requires k < |Split(s, sep)| && j < |Split(s, sep)[k]|
    ensures Split(s, sep)[k][j] in s && Split(s, sep)[k][j] != sep
  {
    var rest := Split(s[1..], sep);
    if s[0] == sep {
      SplitChars(s[1..], sep, k - 1, j);
    } else if k == 0 {
      if j > 0 {
        SplitChars(s[1..], sep, 0, j - 1);
      }
    } else {
      SplitChars(s[1..], sep, k, j);
    }
  }

  lemma {:induction false} JoinChars(parts: seq<string>, sep: char, i: nat)
    requires i < |Join(parts, sep)|
    ensures Join(parts, sep)[i] == sep || exists k :: 0 <= k < |parts| && Join(parts, sep)[i] in parts[k]
  {
    if |parts| > 1 {
      var p := parts[0];
      if i < |p| {
        assert Join(parts, sep)[i] in parts[0];
      } else if i > |p| {
        JoinChars(parts[1..], sep, i - |p| - 1);
        if Join(parts, sep)[i] != sep {
          var k :| 0 <= k < |parts[1..]| && Join(parts[1..], sep)[i - |p| - 1] in parts[1..][k];
          assert parts[1..][k] == parts[k + 1];
        }
      }
    } else {
      assert Join(parts, sep)[i] in parts[0];
    }
  }

  /** Joining non-empty pieces that contain no separator leaves no stray separator. */
  lemma {:induction false} JoinNoStray(parts: seq<string>, sep: char)
    requires forall k :: 0 <= k < |parts| ==> parts[k] != [] && sep !in parts[k]
    ensures NoStraySeparators(Join(parts, sep), sep)
    ensures parts != [] ==> Join(parts, sep) != []
  {
    if |parts| > 1 {
      var p, rest := parts[0], parts[1..];
      JoinNoStray(rest, sep);
      var j := Join(rest, sep);
      var r := Join(parts, sep);
      assert r == p + [sep] + j;
      forall i | 0 <= i < |r| - 1 ensures !(r[i] == sep && r[i + 1] == sep) {
        if i < |p| - 1 {
          assert r[i] == p[i];
        } else if i == |p| - 1 {
          assert r[i] == p[i];
        } else if i == |p| {
          assert r[i + 1] == j[0];
        } else {
          assert r[i] == j[i - |p| - 1] && r[i + 1] == j[i - |p|];
        }
      }
      assert r[|r| - 1] == j[|j| - 1];
    }
  }

  /** Splitting and re-joining gives back the string. */
  lemma {:induction false} JoinSplit(s: string, sep: char)
    ensures Join(Split(s, sep), sep) == s
  {
    if s != [] {
      var rest := Split(s[1..], sep);
      JoinSplit(s[1..], sep);
      if s[0] == sep {
        assert Join([[]] + rest, sep) == [] + [sep] + Join(rest, sep);
      } else {
        var first := [s[0]] + rest[0];
        if |rest| == 1 {
          assert Join([first] + rest[1..], sep) == first;
        } else {
          assert Join([first] + rest[1..], sep) == first + [sep] + Join(rest[1..], sep);
          assert Join(rest, sep) == rest[0] + [sep] + Join(rest[1..], sep);
        }
      }
    }
  }

  /** A string with no stray separator splits into non-empty pieces only
      (past the first one, which is empty exactly when the string starts
      with a separator or is empty). */
  lemma {:induction false} SplitPiecesNonEmpty(s: string, sep: char)
    requires s != [] ==> s[|s| - 1] != sep
    requires forall i :: 0 <= i < |s| - 1 ==> !(s[i] == sep && s[i + 1] == sep)
    ensures Split(s, sep)[0] == [] <==> s == [] || s[0] == sep
    ensures forall k :: 1 <= k < |Split(s, sep)| ==> Split(s, sep)[k] != []
  {
    if s != [] {
      var t := s[1..];
      assert forall i :: 0 <= i < |t| ==> t[i] == s[i + 1];
      SplitPiecesNonEmpty(t, sep);
    }
  }

  lemma {:induction false} NonEmptyKeepsAll(parts: seq<string>)
    requires forall k :: 0 <= k < |parts| ==> parts[k] != []
    ensures NonEmpty(parts) == parts
  {
    if parts != [] {
      NonEmptyKeepsAll(parts[1..]);
    }
  }

  /** `filter(None, …)` works piece by piece: filtering a concatenation
      concatenates the filtered parts, so every non-empty piece is kept, in
      order. */
  lemma {:induction false} NonEmptyAppend(a: seq<string>, b: seq<string>)
    ensures NonEmpty(a + b) == NonEmpty(a) + NonEmpty(b)
  {
    if a == [] {
      assert a + b == b;
    } else {
      assert (a + b)[0] == a[0] && (a + b)[1..] == a[1..] + b;
      NonEmptyAppend(a[1..], b);
    }
  }

  /** One piece is kept exactly when it is non-empty. */
  lemma NonEmptySingle(p: string)
    ensures NonEmpty([p]) == if p == [] then [] else [p]
  {
    assert [p][1..] == [];
  }

  /** Every non-empty piece survives the filter. */
  lemma NonEmptyMember(parts: seq<string>, k: nat)
    requires k < |parts| && parts[k] != []
    ensures parts[k] in NonEmpty(parts)
  {
    var pre, p, post := parts[..k], parts[k], parts[k + 1..];
    assert parts == (pre + [p]) + post;
    KeptInMiddle(pre, p, post);
  }

  lemma KeptInMiddle(pre: seq<string>, p: string, post: seq<string>)
    requires p != []
    ensures p in NonEmpty((pre + [p]) + post)
  {
    NonEmptyAppend(pre + [p], post);
    NonEmptyAppend(pre, [p]);
    NonEmptySingle(p);
    var r := NonEmpty(pre) + [p] + NonEmpty(post);
    assert r[|NonEmpty(pre)|] == p;
  }

  /** A string without the separator is one piece. */
  lemma {:induction false} SplitPlain(w: string, sep: char)
    requires sep !in w
    ensures Split(w, sep) == [w]
  {
    if w != [] {
      SplitPlain(w[1..], sep);
      assert [w[0]] + w[1..] == w;
    }
  }

  /** A piece without the separator, then a separator, starts its own piece. */
  lemma {:induction false} SplitPiece(w: string, t: string, sep: char)
    requires sep !in w
    ensures Split(w + [sep] + t, sep) == [w] + Split(t, sep)
  {
    var s := w + [sep] + t;
    if w == [] {
      assert s == [sep] + t && s[1..] == t;
    } else {
      assert s[0] == w[0] && s[1..] == w[1..] + [sep] + t;
      SplitPiece(w[1..], t, sep);
      assert [w[0]] + w[1..] == w;
    }
  }

  /** A doubled underscore between two words collapses to one: `A__B`
      sanitises like `A_B`, to `A_B`. */
  lemma SanitiseCollapses(a: string, b: string)
    requires Word(a) && Word(b)
    ensures Sanitise(a + "__" + b) == Sanitise(a + "_" + b) == a + "_" + b
  {
    var one, two := a + "_" + b, a + "__" + b;
    KeptWords(a, b);
    SameKeptPieces(one, two);
    JoinedWordsClean([a, b]);
    assert Join([a, b], '_') == one;
    SanitiseKeepsClean(one);
  }

  /** Names whose replaced forms keep the same pieces sanitise alike. */
  lemma SameKeptPieces(x: string, y: string)
    requires NonEmpty(Split(Replaced(x), '_')) == NonEmpty(Split(Replaced(y), '_'))
    ensures Sanitise(x) == Sanitise(y)
  {
  }

  /** `A_B` and `A__B` both keep the pieces `A` and `B`. */
  lemma KeptWords(a: string, b: string)
    requires Word(a) && Word(b)
    ensures NonEmpty(Split(Replaced(a + "_" + b), '_')) == [a, b]
    ensures NonEmpty(Split(Replaced(a + "__" + b), '_')) == [a, b]
  {
    WordsPlain(a, b);
    assert a + "_" + b == a + ['_'] + b;
    assert a + "__" + b == a + ['_', '_'] + b;
    SplitOnce(a, b, '_');
    SplitTwice(a, b, '_');
    NonEmptyGap(a, b);
    NonEmptyKeepsAll([a, b]);
  }

  /** Two words around one or two underscores are not rewritten. */
  lemma WordsPlain(a: string, b: string)
    requires Word(a) && Word(b)
    ensures Replaced(a + "_" + b) == a + "_" + b
    ensures Replaced(a + "__" + b) == a + "__" + b
  {
    ReplacedPlain(a + "_" + b);
    ReplacedPlain(a + "__" + b);
  }

  /** `A_B` splits into `A` and `B`. */
  lemma SplitOnce(a: string, b: string, sep: char)
    requires sep !in a && sep !in b
    ensures Split(a + [sep] + b, sep) == [a, b]
  {
    SplitPlain(b, sep);
    SplitPiece(a, b, sep);
  }

  /** `A__B` splits into `A`, an empty piece and `B`. */
  lemma SplitTwice(a: string, b: string, sep: char)
    requires sep !in a && sep !in b
    ensures Split(a + [sep, sep] + b, sep) == [a, [], b]
  {
    SplitPlain(b, sep);
    SplitPiece([], b, sep);
    assert [] + [sep] + b == [sep] + b;
    SplitPiece(a, [sep] + b, sep);
    assert a + [sep, sep] + b == a + [sep] + ([sep] + b);
  }

  /** The empty piece between two words is dropped. */
  lemma NonEmptyGap(a: string, b: string)
    requires a != [] && b != []
    ensures NonEmpty([a, [], b]) == [a, b]
  {
    assert [a, [], b] == [a] + ([[]] + [b]);
    NonEmptyAppend([a], [[]] + [b]);
    NonEmptyAppend([[]], [b]);
    NonEmptySingle(a);
    NonEmptySingle([]);
    NonEmptySingle(b);
  }

  /** After the replacements no space, parenthesis, slash or hyphen is left. */
  lemma ReplacedChars(s: string)
    ensures forall i :: 0 <= i < |Replaced(s)| ==> var c := Replaced(s)[i];
              c != ' ' && c != '(' && c != ')' && c != '/' && c != '-'
  {
    var a := ReplaceChar(s, ' ', "_");
    var b := ReplaceChar(a, '(', "");
    var c := ReplaceChar(b, ')', "");
    var d := ReplaceChar(c, '/', "_");
    ReplaceCharChars(s, ' ', "_");
    ReplaceCharChars(a, '(', "");
    ReplaceCharChars(b, ')', "");
    ReplaceCharChars(c, '/', "_");
    ReplaceCharChars(d, '-', "_");
    assert forall i :: 0 <= i < |a| ==> a[i] != ' ';
    assert forall i :: 0 <= i < |b| ==> b[i] != ' ' && b[i] != '(';
    assert forall i :: 0 <= i < |c| ==> c[i] != ' ' && c[i] != '(' && c[i] != ')';
    assert forall i :: 0 <= i < |d| ==> d[i] != ' ' && d[i] != '(' && d[i] != ')' && d[i] != '/';
  }

  /** The kept pieces are non-empty and hold no separator. */
  lemma PiecesClean(t: string, sep: char)
    ensures forall k :: 0 <= k < |NonEmpty(Split(t, sep))| ==>
              NonEmpty(Split(t, sep))[k] != [] && sep !in NonEmpty(Split(t, sep))[k]
  {
    var parts := NonEmpty(Split(t, sep));
    forall k | 0 <= k < |parts| ensures sep !in parts[k] {
      var q :| 0 <= q < |Split(t, sep)| && Split(t, sep)[q] == parts[k];
      forall j | 0 <= j < |parts[k]| ensures parts[k][j] != sep {
        SplitChars(t, sep, q, j);
      }
    }
  }

  /** Every character of the re-joined string is the separator or comes from `t`. */
  lemma CollapsedChars(t: string, sep: char, i: nat)
    requires i < |Join(NonEmpty(Split(t, sep)), sep)|
    ensures var c := Join(NonEmpty(Split(t, sep)), sep)[i]; c == sep || c in t
  {
    var parts := NonEmpty(Split(t, sep));
    var joined := Join(parts, sep);
    JoinChars(parts, sep, i);
    if joined[i] != sep {
      var k :| 0 <= k < |parts| && joined[i] in parts[k];
      var j :| 0 <= j < |parts[k]| && parts[k][j] == joined[i];
      var q :| 0 <= q < |Split(t, sep)| && Split(t, sep)[q] == parts[k];
      SplitChars(t, sep, q, j);
    }
  }

  /** The output never contains a space, a parenthesis, a slash, a hyphen or
      a lower-case letter, and has no leading, trailing or doubled underscore. */
  lemma SanitiseIsClean(s: string)
    ensures Clean(Sanitise(s))
  {
    var t := Replaced(s);
    ReplacedChars(s);
    PiecesClean(t, '_');
    var joined := Join(NonEmpty(Split(t, '_')), '_');
    JoinNoStray(NonEmpty(Split(t, '_')), '_');
    var r := Upper(joined);
    forall i | 0 <= i < |r| ensures !Forbidden(r[i]) {
      CollapsedChars(t, '_', i);
    }
    assert forall i :: 0 <= i < |r| ==> (r[i] == '_' <==> joined[i] == '_');
  }

  /** A name that is already clean is left as it is. */
  lemma SanitiseKeepsClean(s: string)
    requires Clean(s)
    ensures Sanitise(s) == s
  {
    ReplaceAbsent(s, ' ', "_");
    ReplaceAbsent(s, '(', "");
    ReplaceAbsent(s, ')', "");
    ReplaceAbsent(s, '/', "_");
    ReplaceAbsent(s, '-', "_");
    assert Replaced(s) == s;
    SplitPiecesNonEmpty(s, '_');
    JoinSplit(s, '_');
    if s != [] {
      NonEmptyKeepsAll(Split(s, '_'));
    }
    assert Upper(s) == s;
  }

  /** Sanitising twice is sanitising once. */
  lemma SanitiseIdempotent(s: string)
    ensures Sanitise(Sanitise(s)) == Sanitise(s)
  {
    SanitiseIsClean(s);
    SanitiseKeepsClean(Sanitise(s));
  }

  /** A word of a category label: non-empty, upper case, and free of the
      characters the sanitiser rewrites or splits on. */
  predicate Word(w: string) {
    w != [] && forall i :: 0 <= i < |w| ==> !Forbidden(w[i]) && w[i] != '_'
  }

  lemma Joined(a: string, c: char, b: string)
    requires Word(a) && Word(b) && (c == ' ' || c == '/')
    ensures Replaced(a + [c] + b) == a + "_" + b
  {
    ReplacedPlain(a);
    ReplacedPlain(b);
    ReplacedSingle(c);
    ReplacedAppend(a, [c]);
    ReplacedAppend(a + [c], b);
  }

  lemma Bracketed(a: string)
    ensures Replaced("(" + a + ")") == Replaced(a)
  {
    ReplacedSingle('(');
    ReplacedSingle(')');
    ReplacedAppend("(", a);
    ReplacedAppend("(" + a, ")");
  }

  lemma Spaced(x: string, y: string)
    ensures Replaced(x + " " + y) == Replaced(x) + "_" + Replaced(y)
  {
    ReplacedSingle(' ');
    ReplacedAppend(x, " ");
    ReplacedAppend(x + " ", y);
  }

  /** The replacements turn a label `W1 W2 (W3/W4)` into `W1_W2_W3_W4`. */
  lemma LabelReplaced(w1: string, w2: string, w3: string, w4: string)
    requires Word(w1) && Word(w2) && Word(w3) && Word(w4)
    ensures Replaced(w1 + " " + w2 + " (" + w3 + "/" + w4 + ")") == Join([w1, w2, w3, w4], '_')
  {
    var x, m := w1 + [' '] + w2, w3 + ['/'] + w4;
    var y := "(" + m + ")";
    Joined(w1, ' ', w2);
    Joined(w3, '/', w4);
    Bracketed(m);
    Spaced(x, y);
    assert w1 + " " + w2 + " (" + w3 + "/" + w4 + ")" == x + " " + y;
    calc {
      Replaced(x + " " + y);
      Replaced(x) + "_" + Replaced(y);
      (w1 + "_" + w2) + "_" + (w3 + "_" + w4);
      { JoinFour(w1, w2, w3, w4); }
      Join([w1, w2, w3, w4], '_');
    }
  }

  lemma JoinFour(w1: string, w2: string, w3: string, w4: string)
    ensures Join([w1, w2, w3, w4], '_') == (w1 + "_" + w2) + "_" + (w3 + "_" + w4)
    ensures Join([w1, w2, w3, w4], '_') == w1 + "_" + w2 + "_" + w3 + "_" + w4
  {
    var q := [w1, w2, w3, w4];
    assert Join(q[3..], '_') == w4;
    assert Join(q[2..], '_') == w3 + "_" + w4;
    assert Join(q[1..], '_') == w2 + "_" + (w3 + "_" + w4);
    assert Join(q, '_') == w1 + "_" + (w2 + "_" + (w3 + "_" + w4));
  }

  /** Words joined by single underscores are already clean. */
  lemma JoinedWordsClean(parts: seq<string>)
    requires parts != []
    requires forall k :: 0 <= k < |parts| ==> Word(parts[k])
    ensures Clean(Join(parts, '_'))
  {
    forall k | 0 <= k < |parts| ensures parts[k] != [] && '_' !in parts[k] {
    }
    JoinNoStray(parts, '_');
    var r := Join(parts, '_');
    forall i | 0 <= i < |r| ensures !Forbidden(r[i]) {
      JoinChars(parts, '_', i);
      if r[i] != '_' {
        var k :| 0 <= k < |parts| && r[i] in parts[k];
      }
    }
  }

  /** A category label `W1 W2 (W3/W4)` sanitises to `W1_W2_W3_W4`; for
      instance `BULLISH CROSS (20/50)` becomes `BULLISH_CROSS_20_50`. */
  lemma SanitiseLabel(w1: string, w2: string, w3: string, w4: string)
    requires Word(w1) && Word(w2) && Word(w3) && Word(w4)
    ensures Sanitise(w1 + " " + w2 + " (" + w3 + "/" + w4 + ")") == w1 + "_" + w2 + "_" + w3 + "_" + w4
  {
    var s := w1 + " " + w2 + " (" + w3 + "/" + w4 + ")";
    var x := Join([w1, w2, w3, w4], '_');
    LabelReplaced(w1, w2, w3, w4);
    JoinedWordsClean([w1, w2, w3, w4]);
    ReplacedChars(s);
    ReplacedPlain(x);
    assert Sanitise(s) == Sanitise(x);
    SanitiseKeepsClean(x);
    JoinFour(w1, w2, w3, w4);
  }

  /** `sanitized_columns`, filled one column at a time. */
  method SanitisedNames(columns: seq<string>) returns (names: map<string, string>)
    ensures names.Keys == set i | 0 <= i < |columns| :: columns[i]
    ensures forall col :: col in names ==> names[col] == Sanitise(col)
  {
    names := map[];
    for i := 0 to |columns|
      invariant names.Keys == set j | 0 <= j < i :: columns[j]
      invariant forall col :: col in names ==> names[col] == Sanitise(col)
    {
      names := names[columns[i] := Sanitise(columns[i])];
    }
  }
}
