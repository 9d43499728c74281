/** What the text search decides about a record an agent has printed: a statement about its rule name
    and its arguments, with no text left in it. */
module RecordQueries {
  import opened CStrings
  import opened Conditions
  import opened Templates
  import opened Records
  import opened RecordMatch

  predicate EndsWith(s: string, suffix: string) {
    |suffix| <= |s| && s[|s| - |suffix|..] == suffix
  }

  /** An argument satisfies a condition whose name ends its own.  Numbers are compared as numbers only
      when the name is complete. */
  predicate ArgSatisfies(c: Cond, a: Arg) {
    EndsWith(a.name, c.name) && Satisfies(c.op, a.kind.Number? && a.name == c.name, c.value, a.value)
  }

  predicate SatisfiedBy(c: Cond, rule: string, args: seq<Arg>) {
    if c.name == "rule" then Satisfies(c.op, false, c.value, rule)
    else exists a <- args :: ArgSatisfies(c, a)
  }

  // ----- positions in a text that is cut at its quotes

  predicate QuoteFree(ps: seq<string>) {
    forall k :: 0 <= k < |ps| ==> Free(ps[k], '"')
  }

  /** Where piece `j` starts. */
  function Start(ps: seq<string>, j: nat): nat
    requires j <= |ps|
  {
    if j == 0 then 0 else |ps[0]| + 1 + Start(ps[1..], j - 1)
  }

  function Tail(ps: seq<string>, j: nat): string
    requires j < |ps|
  {
    Join(ps[j..], QUOTE)
  }

  lemma {:induction false} StartsAt(ps: seq<string>, j: nat)
    requires j < |ps|
    ensures Start(ps, j) + |Tail(ps, j)| == |Tail(ps, 0)| && Tail(ps, 0)[Start(ps, j)..] == Tail(ps, j)
    decreases j
  {
    if j == 0 {
      assert ps[0..] == ps;
    } else {
      var qs := ps[1..];
      assert ps[0..] == [ps[0]] + qs && qs[0..] == qs && qs[j - 1..] == ps[j..];
      JoinCons(ps[0], qs);
      StartsAt(qs, j - 1);
      var r := Join(qs, QUOTE);
      assert Quoted(ps[0], r)[|ps[0]| + 1..] == r;
      assert r[Start(qs, j - 1)..] == Quoted(ps[0], r)[|ps[0]| + 1 + Start(qs, j - 1)..];
    }
  }

  /** The field opening, quote by quote. */
  function Opening(rest: string): string {
    QUOTE + Quoted(",", Quoted("value", Quoted(":", rest)))
  }

  lemma OpeningIs()
    ensures Opening("") == VALUE_OPEN
  {
    Fold3(",", "value", ":", "");
    ValueOpenIs();
    NoTail("," + QUOTE + "value" + QUOTE + ":" + QUOTE);
  }

  lemma QuotedFind(x: string, r: string)
    requires Free(x, '"')
    ensures Find(Quoted(x, r), '"') == |x| && Quoted(x, r)[..|x|] == x && Quoted(x, r)[|x| + 1..] == r
  {
    var s := Quoted(x, r);
    assert s[..|x|] == x;
    FindIs(s, '"', |x|);
  }

  lemma QuotedPrefixOf(w: string, u: string, x: string, r: string)
    requires Free(w, '"') && Free(x, '"')
    ensures Quoted(w, u) <= Quoted(x, r) <==> x == w && u <= r
  {
    var s, t := Quoted(x, r), Quoted(w, u);
    QuotedFind(x, r);
    QuotedFind(w, u);
    if t <= s {
      var n := |w|;
      assert s[n] == t[n] == '"' && s[..n] == t[..n];
      FindIs(s, '"', n);
      assert t[n + 1..] <= s[n + 1..];
    }
    if x == w && u <= r {
      assert r == u + r[|u|..];
      Assoc(x + QUOTE, u, r[|u|..]);
    }
  }

  lemma PrefixFree(t: string, s: string)
    requires Free(s, '"')
    ensures t <= s ==> Free(t, '"')
  {
  }

  lemma QuotedNotIn(w: string, u: string, s: string)
    requires Free(s, '"')
    ensures !(Quoted(w, u) <= s)
  {
    assert Quoted(w, u)[|w|] == '"';
    PrefixFree(Quoted(w, u), s);
  }

  predicate Heads(p: string, s: string) { p <= s }

  /** A quote-free text closed by a quote starts a joined text only as its first piece. */
  lemma QuotedPrefix(w: string, u: string, ps: seq<string>)
    requires QuoteFree(ps) && ps != [] && Free(w, '"')
    ensures Heads(Quoted(w, u), Join(ps, QUOTE)) <==> |ps| > 1 && ps[0] == w && Heads(u, Join(ps[1..], QUOTE))
  {
    hide Quoted;
    if |ps| == 1 {
      QuotedNotIn(w, u, ps[0]);
    } else {
      assert ps == [ps[0]] + ps[1..];
      JoinCons(ps[0], ps[1..]);
      QuotedPrefixOf(w, u, ps[0], Join(ps[1..], QUOTE));
    }
  }

  lemma OpeningPrefix(ps: seq<string>)
    requires QuoteFree(ps) && ps != []
    ensures Quoted(",", Quoted("value", Quoted(":", ""))) <= Join(ps, QUOTE)
            <==> |ps| > 3 && ps[0] == "," && ps[1] == "value" && ps[2] == ":"
  {
    OpeningHeads(ps);
  }

  lemma OpeningHeads(ps: seq<string>)
    requires QuoteFree(ps) && ps != []
    ensures Heads(Quoted(",", Quoted("value", Quoted(":", ""))), Join(ps, QUOTE))
            <==> |ps| > 3 && ps[0] == "," && ps[1] == "value" && ps[2] == ":"
  {
    hide Quoted, Join, Heads;
    QuotedPrefix(",", Quoted("value", Quoted(":", "")), ps);
    if |ps| > 1 {
      var qs := ps[1..];
      QuotedPrefix("value", Quoted(":", ""), qs);
      if |ps| > 2 {
        QuotedPrefix(":", "", qs[1..]);
        if |ps| > 3 { NothingHeads(Join(qs[1..][1..], QUOTE)); }
      }
    }
  }

  lemma NothingHeads(s: string)
    ensures Heads("", s)
  {
  }

  /** Pieces `j`.. have the shape: something ending in `name`, then the opening of a value. */
  predicate FieldAt(ps: seq<string>, name: string, j: nat) {
    j + 4 < |ps| && EndsWith(ps[j], name) && ps[j + 1] == "," && ps[j + 2] == "value" && ps[j + 3] == ":"
  }

  lemma FirstPieceField(ps: seq<string>, name: string, k: nat)
    requires QuoteFree(ps) && ps != [] && Free(name, '"') && k <= |ps[0]|
    ensures OccursAt(Join(ps, QUOTE), name + VALUE_OPEN, k) <==> FieldAt(ps, name, 0) && k == |ps[0]| - |name|
  {
    var s, x := Join(ps, QUOTE), ps[0];
    var o := Quoted(",", Quoted("value", Quoted(":", "")));
    OpeningIs();
    Assoc(name, QUOTE, o);
    assert name + VALUE_OPEN == Quoted(name, o);
    var qs := [x[k..]] + ps[1..];
    assert qs[1..] == ps[1..];
    assert s[k..] == Join(qs, QUOTE);
    assert Free(x[k..], '"') by { assert forall i :: 0 <= i < |x| - k ==> x[k..][i] == x[k + i]; }
    assert QuoteFree(qs);
    QuotedPrefix(name, o, qs);
    if |ps| > 1 { OpeningPrefix(ps[1..]); }
    assert x[k..] == name <==> EndsWith(x, name) && k == |x| - |name|;
  }

  lemma LaterPieceField(x: string, ps: seq<string>, name: string, k: nat)
    requires ps != [] && k > |x|
    ensures OccursAt(Join([x] + ps, QUOTE), name + VALUE_OPEN, k)
            <==> OccursAt(Join(ps, QUOTE), name + VALUE_OPEN, k - |x| - 1)
  {
    JoinCons(x, ps);
    var r := Join(ps, QUOTE);
    var s := Quoted(x, r);
    if k <= |s| { assert s[k..] == r[k - |x| - 1..]; }
  }

  /** Every occurrence of a field is at the end of a piece. */
  lemma {:induction false} FieldPiece(ps: seq<string>, name: string, k: nat) returns (j: nat)
    requires QuoteFree(ps) && ps != [] && Free(name, '"')
    requires OccursAt(Join(ps, QUOTE), name + VALUE_OPEN, k)
    ensures FieldAt(ps, name, j) && k == Start(ps, j) + |ps[j]| - |name|
    decreases |ps|
  {
    if k <= |ps[0]| {
      FirstPieceField(ps, name, k);
      j := 0;
    } else {
      SplitOccurrence(Join(ps, QUOTE), name, VALUE_OPEN, k);
      SepChars(Join(ps, QUOTE), k + |name|);
      assert |ps| > 1;
      var qs := ps[1..];
      assert ps == [ps[0]] + qs;
      LaterPieceField(ps[0], qs, name, k);
      var i := FieldPiece(qs, name, k - |ps[0]| - 1);
      j := i + 1;
    }
  }

  lemma {:induction false} PieceField(ps: seq<string>, name: string, j: nat)
    requires QuoteFree(ps) && Free(name, '"') && FieldAt(ps, name, j)
    ensures OccursAt(Join(ps, QUOTE), name + VALUE_OPEN, Start(ps, j) + |ps[j]| - |name|)
    decreases j
  {
    if j == 0 {
      FirstPieceField(ps, name, |ps[0]| - |name|);
    } else {
      var qs := ps[1..];
      assert ps == [ps[0]] + qs;
      PieceField(qs, name, j - 1);
      LaterPieceField(ps[0], qs, name, Start(ps, j) + |ps[j]| - |name|);
    }
  }

  /** The value of a field is the fourth piece behind its name, when a quote closes it. */
  lemma FieldValue(ps: seq<string>, name: string, j: nat)
    requires QuoteFree(ps) && Free(name, '"') && FieldAt(ps, name, j)
    ensures var rec, v := Join(ps, QUOTE), Start(ps, j) + |ps[j]| + |VALUE_OPEN|;
            v <= |rec| && (ValueEnd(rec, v) < |rec| <==> j + 5 < |ps|)
            && (j + 5 < |ps| ==> rec[v..ValueEnd(rec, v)] == ps[j + 4])
  {
    var rec := Join(ps, QUOTE);
    assert ps[0..] == ps;
    StartsAt(ps, j + 4);
    StartPlus4(ps, j);
    var v := Start(ps, j + 4);
    var tail := rec[v..];
    var x := ps[j + 4];
    assert Free(x, '"');
    if j + 5 < |ps| {
      assert ps[j + 4..] == [x] + ps[j + 5..];
      JoinCons(x, ps[j + 5..]);
      assert tail[..|x|] == x && tail[|x|] == '"';
      FindIs(tail, '"', |x|);
    } else {
      assert ps[j + 4..] == [x];
      assert tail == x && tail[..|x|] == x;
      FindIs(tail, '"', |x|);
    }
  }

  lemma {:induction false} StartStep(ps: seq<string>, j: nat)
    requires j < |ps|
    ensures Start(ps, j + 1) == Start(ps, j) + |ps[j]| + 1
    decreases j
  {
    if j > 0 { StartStep(ps[1..], j - 1); }
  }

  lemma StartPlus4(ps: seq<string>, j: nat)
    requires j + 4 < |ps| && ps[j + 1] == "," && ps[j + 2] == "value" && ps[j + 3] == ":"
    ensures Start(ps, j + 4) == Start(ps, j) + |ps[j]| + |VALUE_OPEN|
  {
    StartStep(ps, j);
    StartStep(ps, j + 1);
    StartStep(ps, j + 2);
    StartStep(ps, j + 3);
  }

  // ----- the fields of a record are its arguments

  lemma TailStep12(args: seq<Arg>, first: bool, i: nat)
    requires args != [] && i < |TailPieces(args, first)|
    ensures i < 12 ==> TailPieces(args, first)[i] == ArgPieces(args[0], first)[i]
    ensures i >= 12 ==> i - 12 < |TailPieces(args[1..], false)| &&
                        TailPieces(args, first)[i] == TailPieces(args[1..], false)[i - 12]
  {
  }

  /** The first piece of a tail is punctuation. */
  lemma TailHead(args: seq<Arg>, first: bool)
    ensures TailPieces(args, first)[0] != "," && TailPieces(args, first)[0] != "value"
  {
    var p := TailPieces(args, first)[0];
    assert p[0] == ':' || p[0] == '}';
  }

  lemma NameIsNoComma(s: string)
    requires CleanName(s)
    ensures s != "," && s != "value"
  {
    if s != "" { assert s[0] in s; }
  }

  /** The opening of a value stands only behind the name of an argument, never inside a captured value. */
  lemma {:induction false} OpeningsInTail(args: seq<Arg>, first: bool, i: nat)
    requires CleanAll(args) && i + 2 < |TailPieces(args, first)|
    requires TailPieces(args, first)[i + 1] == "," && TailPieces(args, first)[i + 2] == "value"
    ensures i % 12 == 7 && i / 12 < |args|
    decreases |args|
  {
    hide TailPieces, ArgPieces;
    var ps := TailPieces(args, first);
    TailOfNone(first);
    assert Clean(args[0]);
    if i >= 12 {
      TailStep12(args, first, i + 1);
      TailStep12(args, first, i + 2);
      OpeningsInTail(args[1..], false, i - 12);
    } else {
      TailHead(args[1..], false);
      TailStep12(args, first, i + 1);
      TailStep12(args, first, i + 2);
      OpeningsInArg(args[0], first, i, ps[i + 1], ps[i + 2]);
    }
  }

  lemma TailOfNone(first: bool)
    ensures |TailPieces([], first)| == 1
  {
  }

  lemma OpeningsInArg(a: Arg, first: bool, i: nat, p: string, q: string)
    requires i < 12 && CleanName(a.name) && p == "," && q == "value"
    requires i + 1 < 12 ==> p == ArgPieces(a, first)[i + 1]
    requires i + 2 < 12 ==> q == ArgPieces(a, first)[i + 2]
    requires i + 2 == 12 ==> q != "value"
    requires i + 1 == 12 ==> p != ","
    ensures i == 7
  {
    NameIsNoComma(a.name);
    assert "type" != "," && "type" != "value" && ":" != "," && "name" != "value" && ":" != "value" && "name" != ",";
    assert KindText(a.kind) != "," && "value" != ",";
  }

  /** The pieces of argument `n`. */
  lemma {:induction false} TailAt(args: seq<Arg>, first: bool, n: nat)
    requires n < |args|
    ensures 12 * n < |TailPieces(args, first)|
    ensures TailPieces(args, first)[12 * n..] == ArgPieces(args[n], first && n == 0) + TailPieces(args[n + 1..], false)
    decreases n
  {
    var ps := TailPieces(args, first);
    if n == 0 {
      assert ps[0..] == ps;
    } else {
      var rest := TailPieces(args[1..], false);
      TailAt(args[1..], false, n - 1);
      assert args[1..][n - 1] == args[n] && args[1..][n..] == args[n + 1..];
      assert ps == ArgPieces(args[0], first) + rest;
      assert ps[12 * n..] == rest[12 * (n - 1)..];
    }
  }

  lemma PiecesAt(rule: string, args: seq<Arg>, n: nat)
    requires n < |args|
    ensures var ps, j := Pieces(rule, args), 6 + 12 * n;
            j < |ps| && ps[j..] == ArgPieces(args[n], n == 0) + TailPieces(args[n + 1..], false)
  {
    hide TailPieces, ArgPieces;
    TailAt(args, true, n);
    assert Pieces(rule, args)[6 + 12 * n..] == TailPieces(args, true)[12 * n..];
  }

  /** The name of argument `n` is the piece in front of a value opening, and its value is behind it. */
  lemma ArgField(rule: string, args: seq<Arg>, n: nat, name: string)
    requires n < |args|
    ensures var ps, j := Pieces(rule, args), 13 + 12 * n;
            j + 5 < |ps| && ps[j] == args[n].name && ps[j + 4] == args[n].value
            && (FieldAt(ps, name, j) <==> EndsWith(args[n].name, name))
  {
    hide TailPieces, EndsWith;
    PiecesAt(rule, args, n);
    var ps, j := Pieces(rule, args), 13 + 12 * n;
    var qs := ArgPieces(args[n], n == 0) + TailPieces(args[n + 1..], false);
    var t := ps[6 + 12 * n..];
    assert ps[j] == t[7] && ps[j + 1] == t[8] && ps[j + 2] == t[9] && ps[j + 3] == t[10] && ps[j + 4] == t[11];
    assert qs[7] == args[n].name && qs[8] == "," && qs[9] == "value" && qs[10] == ":" && qs[11] == args[n].value;
  }

  lemma FieldIsArg(rule: string, args: seq<Arg>, name: string, j: nat)
    requires CleanName(rule) && CleanAll(args) && FieldAt(Pieces(rule, args), name, j)
    ensures j >= 13 && (j - 13) % 12 == 0 && (j - 13) / 12 < |args|
  {
    hide TailPieces, EndsWith;
    var ps := Pieces(rule, args);
    if j < 6 {
      HeadHasNoOpening(rule, args, j);
    }
    assert ps[j + 1] == TailPieces(args, true)[j - 5] && ps[j + 2] == TailPieces(args, true)[j - 4];
    OpeningsInTail(args, true, j - 6);
  }

  lemma HeadHasNoOpening(rule: string, args: seq<Arg>, j: nat)
    requires CleanName(rule) && j < 6
    ensures j + 2 < |Pieces(rule, args)| ==> Pieces(rule, args)[j + 1] != "," || Pieces(rule, args)[j + 2] != "value"
  {
    NameIsNoComma(rule);
    TailHead(args, true);
    assert "rule" != "," && ":" != "," && ",\n" != "," && "args" != ",";
  }

  // ----- numeric comparison

  /** Sixteen characters in front of a suffix of the name stands "number" only when the kind is number
      and the suffix is the whole name. */
  lemma NumberField(kind: Kind, name: string, rest: string, d: nat)
    requires CleanName(name) && d <= |name|
    ensures var w := ArgOpen(kind) + name + rest;
            |ArgOpen(kind)| >= |NUMBER_FIELD| &&
            (OccursAt(w, "number", |ArgOpen(kind)| + d - |NUMBER_FIELD|) <==> kind.Number? && d == 0)
  {
    hide ArgOpen;
    var o := ArgOpen(kind);
    var w, i := o + name + rest, |o| + d - |NUMBER_FIELD|;
    OpenLetters(kind);
    if kind.Number? && d == 0 {
      assert w[i..i + 6] == o[10..16];
      NumberHere(w, i);
    } else {
      NotAtNumber(o, name, rest, i);
    }
  }

  lemma NumberHere(w: string, i: nat)
    requires i + 6 <= |w| && w[i..i + 6] == "number"
    ensures OccursAt(w, "number", i)
  {
    assert w[i..][..6] == w[i..i + 6];
  }

  lemma NotAtNumber(o: string, name: string, rest: string, i: nat)
    requires CleanName(name) && o != "" && o[|o| - 1] == '"' && i < |o| + |name|
    requires i < |o| - 1 ==> o[i] != 'n' || o[i + 1] != 'u'
    ensures !OccursAt(o + name + rest, "number", i)
  {
    var w := o + name + rest;
    NumberStarts(w, i);
    if i < |o| {
      assert w[i] == o[i];
      if i + 1 < |o| { assert w[i + 1] == o[i + 1]; }
    } else {
      assert w[i] == name[i - |o|] && name[i - |o|] in name;
    }
  }

  lemma NumberStarts(w: string, i: nat)
    ensures OccursAt(w, "number", i) ==> i + 6 <= |w| && w[i] == 'n' && w[i + 1] == 'u'
  {
    if OccursAt(w, "number", i) {
      var t := w[i..];
      assert t[0] == 'n' && t[1] == 'u';
    }
  }

  lemma {:induction false} OpenLetters(kind: Kind)
    ensures |ArgOpen(kind)| == if kind.Date? then 24 else 26
    ensures forall i :: |ArgOpen(kind)| - 16 < i < |ArgOpen(kind)| - 1 ==>
              ArgOpen(kind)[i] != 'n' || ArgOpen(kind)[i + 1] != 'u'
    ensures !kind.Number? ==> ArgOpen(kind)[|ArgOpen(kind)| - 16] != 'n'
    ensures ArgOpen(kind)[|ArgOpen(kind)| - 1] == '"'
    ensures kind.Number? ==> ArgOpen(kind)[10..16] == "number"
  {
  }

  /** Up to the name of argument `n` the record is some text and the opening of the argument. */
  lemma ArgText(rule: string, args: seq<Arg>, n: nat)
    requires n < |args|
    ensures var ps, a := Pieces(rule, args), args[n];
            13 + 12 * n < |ps|
            && Start(ps, 13 + 12 * n) == Start(ps, 6 + 12 * n) + 3 + |ArgOpen(a.kind)|
            && exists rest :: Tail(ps, 6 + 12 * n) == Lead(n == 0) + (ArgOpen(a.kind) + a.name + rest)
  {
    hide TailPieces, ArgOpen;
    var ps, a, tail := Pieces(rule, args), args[n], TailPieces(args[n + 1..], false);
    PiecesAt(rule, args, n);
    JoinArg(a, n == 0, tail);
    var rest := VALUE_OPEN + (a.value + (QUOTE + Join(tail, QUOTE)));
    Assoc(ArgOpen(a.kind), a.name, rest);
    assert Tail(ps, 6 + 12 * n) == Lead(n == 0) + (ArgOpen(a.kind) + a.name + rest);
    StartInArg(ps, a, n == 0, 6 + 12 * n);
  }

  lemma StartInArg(ps: seq<string>, a: Arg, first: bool, j: nat)
    requires j + 7 < |ps| && forall i :: 0 <= i < 7 ==> ps[j..][i] == ArgPieces(a, first)[i]
    ensures Start(ps, j + 7) == Start(ps, j) + 3 + |ArgOpen(a.kind)|
  {
    hide ArgOpen;
    var t := ps[j..];
    StartStep(ps, j);
    StartStep(ps, j + 1);
    StartStep(ps, j + 2);
    StartStep(ps, j + 3);
    StartStep(ps, j + 4);
    StartStep(ps, j + 5);
    StartStep(ps, j + 6);
    KindOpen(a.kind);
    assert ps[j] == t[0] && ps[j + 1] == t[1] && ps[j + 2] == t[2] && ps[j + 3] == t[3] && ps[j + 4] == t[4]
        && ps[j + 5] == t[5] && ps[j + 6] == t[6];
  }

  /** The numeric test, at the occurrence of a condition's name in argument `n`. */
  lemma {:induction false} NumberAtArg(rule: string, args: seq<Arg>, n: nat, name: string)
    requires n < |args| && CleanName(args[n].name) && EndsWith(args[n].name, name)
    ensures 13 + 12 * n < |Pieces(rule, args)|
    ensures var rec, k := Record(rule, args), Start(Pieces(rule, args), 13 + 12 * n) + |args[n].name| - |name|;
            NumberAt(rec, k) <==> args[n].kind.Number? && args[n].name == name
  {
    hide Pieces, Record, Join, ArgOpen, NUMBER_FIELD, OccursAt, Start;
    var ps, a := Pieces(rule, args), args[n];
    ArgText(rule, args, n);
    var base, d := Start(ps, 6 + 12 * n), |a.name| - |name|;
    var rest :| Tail(ps, 6 + 12 * n) == Lead(n == 0) + (ArgOpen(a.kind) + a.name + rest);
    var w := ArgOpen(a.kind) + a.name + rest;
    NumberField(a.kind, a.name, rest, d);
    RecordIsPieces(rule, args);
    assert ps[0..] == ps;
    StartsAt(ps, 6 + 12 * n);
    var rec := Record(rule, args);
    var i := |ArgOpen(a.kind)| + d - |NUMBER_FIELD|;
    assert rec[base..] == Lead(n == 0) + w;
    assert rec[base + 3..] == w;
    ShiftOccurs(rec, w, base + 3, i);
    assert d == 0 ==> a.name[d..] == a.name;
  }

  lemma ShiftOccurs(rec: string, w: string, base: nat, i: nat)
    requires base <= |rec| && rec[base..] == w
    ensures OccursAt(rec, "number", base + i) <==> OccursAt(w, "number", i)
  {
    if base + i <= |rec| { assert rec[base + i..] == w[i..]; }
  }

  // ----- the meaning of a search on a record

  lemma PiecesFree(rule: string, args: seq<Arg>)
    requires CleanName(rule) && CleanAll(args)
    ensures QuoteFree(Pieces(rule, args))
  {
    hide Pieces;
    PiecesQuoteFree(rule, args);
  }

  /** An argument that satisfies a condition is found. */
  lemma {:induction false} ArgIsHit(rule: string, args: seq<Arg>, c: Cond, n: nat)
    requires CleanName(rule) && CleanAll(args) && Free(c.name, '"')
    requires n < |args| && EndsWith(args[n].name, c.name)
    ensures 13 + 12 * n < |Pieces(rule, args)|
    ensures var k := Start(Pieces(rule, args), 13 + 12 * n) + |args[n].name| - |c.name|;
            HitAt(Record(rule, args), c, k) <==> ArgSatisfies(c, args[n])
  {
    hide Pieces, Record, Join, Satisfies, NumberAt, EndsWith;
    var ps, j := Pieces(rule, args), 13 + 12 * n;
    assert Clean(args[n]);
    PiecesFree(rule, args);
    RecordIsPieces(rule, args);
    ArgField(rule, args, n, c.name);
    PieceField(ps, c.name, j);
    FieldValue(ps, c.name, j);
    NumberAtArg(rule, args, n, c.name);
  }

  /** Whatever is found is an argument. */
  lemma HitIsArg(rule: string, args: seq<Arg>, c: Cond, k: nat) returns (n: nat)
    requires CleanName(rule) && CleanAll(args) && Free(c.name, '"')
    requires HitAt(Record(rule, args), c, k)
    ensures n < |args| && ArgSatisfies(c, args[n])
  {
    hide Pieces, Record, Join, Satisfies, NumberAt, EndsWith;
    var ps := Pieces(rule, args);
    PiecesFree(rule, args);
    RecordIsPieces(rule, args);
    PiecesSome(rule, args);
    var j := FieldPiece(ps, c.name, k);
    FieldIsArg(rule, args, c.name, j);
    n := (j - 13) / 12;
    assert j == 13 + 12 * n;
    ArgField(rule, args, n, c.name);
    ArgIsHit(rule, args, c, n);
  }

  lemma PiecesSome(rule: string, args: seq<Arg>)
    ensures Pieces(rule, args) != []
  {
  }

  /** The search accepts a condition exactly when some argument of the record, with a name that the
      condition's name ends, satisfies it. */
  lemma HitsMeans(rule: string, args: seq<Arg>, c: Cond)
    requires CleanName(rule) && CleanAll(args) && Free(c.name, '"')
    ensures Hits(Record(rule, args), c) <==> exists a <- args :: ArgSatisfies(c, a)
  {
    hide Record, HitAt, ArgSatisfies;
    var rec := Record(rule, args);
    if Hits(rec, c) {
      var k: nat :| HitAt(rec, c, k);
      var n := HitIsArg(rule, args, c, k);
      assert args[n] in args;
    }
    if exists a <- args :: ArgSatisfies(c, a) {
      var a :| a in args && ArgSatisfies(c, a);
      var n :| 0 <= n < |args| && args[n] == a;
      EndsWithFrom(c, a);
      ArgIsHit(rule, args, c, n);
    }
  }

  lemma EndsWithFrom(c: Cond, a: Arg)
    requires ArgSatisfies(c, a)
    ensures EndsWith(a.name, c.name)
  {
  }

  lemma RuleFieldAt(rule: string, args: seq<Arg>)
    requires CleanName(rule)
    ensures var rec := Record(rule, args);
            StrStr(rec, "rule") == Some(2) && RuleInside(rec) && 9 <= |rec|
            && ValueEnd(rec, 9) < |rec| && rec[9..ValueEnd(rec, 9)] == rule
  {
    var rec := Record(rule, args);
    var body := Join(PrintArgs(args), ",\n") + RECORD_CLOSE;
    Assoc(Header(rule), Join(PrintArgs(args), ",\n"), RECORD_CLOSE);
    Assoc(RULE_OPEN + rule, ARGS_OPEN, body);
    Assoc(RULE_OPEN, rule, ARGS_OPEN + body);
    RuleTextAt(rec, rule, ARGS_OPEN + body);
    NamePlain(rule);
    var tail := rec[9..];
    assert tail[..|rule|] == rule && tail[|rule|] == ARGS_OPEN[0] == '"';
    FindIs(tail, '"', |rule|);
  }

  lemma RuleTextAt(rec: string, rule: string, rest: string)
    requires rec == RULE_OPEN + (rule + rest)
    ensures StrStr(rec, "rule") == Some(2) && |RULE_FIELD| == 7 && rec[9..] == rule + rest
  {
    assert rec[0] == '{' && rec[1] == '"' && rec[2] == 'r' && rec[3] == 'u' && rec[4] == 'l' && rec[5] == 'e';
    assert rec[2..][..4] == "rule";
    assert rec[0..][0] == '{' && rec[1..][0] == '"';
    StrStrIs(rec, "rule", 2);
  }

  /** A condition called "rule" is about the name of the rule. */
  lemma RuleHitMeans(rule: string, args: seq<Arg>, c: Cond)
    requires CleanName(rule)
    ensures RuleInside(Record(rule, args))
    ensures RuleHit(Record(rule, args), c) <==> Satisfies(c.op, false, c.value, rule)
  {
    hide Record, Satisfies;
    RuleFieldAt(rule, args);
  }

  /** The answer of the buffer search, for any condition the parser accepts, on any record the agent can
      print, in terms of rule name and arguments alone. */
  lemma HoldsMeans(c: Cond, rule: string, args: seq<Arg>)
    requires CleanName(rule) && CleanAll(args) && Free(c.name, '"')
    ensures RuleInside(Record(rule, args))
    ensures Holds(c, Record(rule, args)) <==> SatisfiedBy(c, rule, args)
  {
    hide Record, Satisfies, ArgSatisfies, Hits, RuleHit, RuleInside;
    RuleHitMeans(rule, args, c);
    HitsMeans(rule, args, c);
  }
}
