/** The text form of points-to maps: what reading a text yields, and how a map is printed. */
module PtsText {
  import opened Decimal

  type Pts = map<int32, set<int32>>

  const RULE := "------"
  const ARROW := " -> { "

  /** The first line, the text behind it, and whether the stream is still good: it is not when the
      text ends before a line break. */
  function TakeLine(s: string): (r: (string, string, bool))
    ensures |r.1| <= |s| && (r.2 ==> |r.1| < |s|)
  {
    if s == "" then ("", "", false)
    else if s[0] == '\n' then ("", s[1..], true)
    else
      var r := TakeLine(s[1..]);
      ([s[0]] + r.0, r.1, r.2)
  }

  /** Everything up to the first rule is skipped. */
  function SkipHeader(s: string, good: bool): (r: (string, bool))
    decreases |s|, good
  {
    if !good then (s, good)
    else
      var l := TakeLine(s);
      if l.0 == RULE then (l.1, l.2) else SkipHeader(l.1, l.2)
  }

  /** The first position of `d` in `s`, or -1. */
  function Find(s: string, d: string): (i: int)
    ensures i < 0 || (i + |d| <= |s| && s[i..i + |d|] == d)
  {
    if |s| < |d| then -1
    else if s[..|d|] == d then 0
    else if s == "" then -1
    else
      var i := Find(s[1..], d);
      if i < 0 then -1 else i + 1
  }

  datatype Line = Stop | Facts(node: int32, objs: string)

  /** The object text runs from `p` to two characters before the end; the length is unsigned, so
      where fewer than two are left it wraps around and the text runs to the end. */
  function ObjsFrom(line: string, p: nat): string
    requires p <= |line|
  {
    if |line| - p >= 2 then line[p..|line| - 2] else line[p..]
  }

  function ParseLine(line: string): Line {
    if line == RULE then Stop
    else
      var pos := Find(line, ARROW);
      if pos < 0 then Stop
      else if line[|line| - 1] != '}' then Stop
      else Facts(Atoi(line[..pos]), ObjsFrom(line, pos + |ARROW|))
  }

  /** The values extracted from an object text by a variable that starts as `prev`. */
  function ReadObjs(s: string, prev: int32): set<int32>
    decreases |s|
  {
    var r := Extract(s, prev);
    {r.0} + if r.2 then ReadObjs(r.1, r.0) else {}
  }

  lemma ReadObjsStep(s: string, prev: int32)
    ensures var r := Extract(s, prev); ReadObjs(s, prev) == {r.0} + if r.2 then ReadObjs(r.1, r.0) else {}
  {
  }

  function Get(m: Pts, k: int32): set<int32> {
    if k in m then m[k] else {}
  }

  function AddLine(m: Pts, node: int32, objs: string, stale: int32): Pts {
    if objs == "" then m else m[node := Get(m, node) + ReadObjs(objs, stale)]
  }

  function ReadLines(s: string, good: bool, m: Pts, stale: int32): Pts
    decreases |s|, good
  {
    if !good then m
    else
      var l := TakeLine(s);
      match ParseLine(l.0)
      case Stop => m
      case Facts(node, objs) => ReadLines(l.1, l.2, AddLine(m, node, objs, stale), stale)
  }

  /** What reading a whole text yields. `stale` stands for the initial value of the variable that
      receives objects, which the program leaves unset. */
  function ReadText(text: string, stale: int32): Pts {
    var h := SkipHeader(text, true);
    ReadLines(h.0, h.1, map[], stale)
  }

  predicate NoEmptyEntries(m: Pts) {
    forall k | k in m :: m[k] != {}
  }

  lemma {:induction false} ReadsNoEmptyEntries(s: string, good: bool, m: Pts, stale: int32)
    requires NoEmptyEntries(m)
    ensures NoEmptyEntries(ReadLines(s, good, m, stale))
    decreases |s|, good
  {
    if good {
      var l := TakeLine(s);
      match ParseLine(l.0)
      case Stop =>
      case Facts(node, objs) =>
        ReadsNoEmptyEntries(l.1, l.2, AddLine(m, node, objs, stale), stale);
    }
  }

  predicate IsLeast(s: set<int32>, x: int32) {
    x in s && forall y | y in s :: x <= y
  }

  lemma LeastExists(s: set<int32>)
    requires s != {}
    ensures exists x :: IsLeast(s, x)
  {
    var x :| x in s;
    var rest := s - {x};
    assert s == rest + {x};
    if rest == {} {
      assert IsLeast(s, x);
    } else {
      LeastExists(rest);
      var y :| IsLeast(rest, y);
      var z := if x <= y then x else y;
      assert IsLeast(s, z);
    }
  }

  /** The members in increasing order. */
  ghost function Ascending(s: set<int32>): (r: seq<int32>)
    ensures forall x :: x in r <==> x in s
    ensures forall i, j | 0 <= i < j < |r| :: r[i] < r[j]
  {
    if s == {} then []
    else
      LeastExists(s);
      var x :| IsLeast(s, x);
      [x] + Ascending(s - {x})
  }

  lemma AscendingFirst(s: set<int32>, x: int32)
    requires IsLeast(s, x)
    ensures Ascending(s) == [x] + Ascending(s - {x})
  {
    assert forall y | IsLeast(s, y) :: y == x;
  }

  function Members(vals: seq<int32>): set<int32> {
    set v | v in vals
  }

  function Body(vals: seq<int32>): string {
    if vals == [] then "" else Show(vals[0]) + " " + Body(vals[1..])
  }

  function EntryLine(k: int32, vals: seq<int32>): string {
    Show(k) + ARROW + Body(vals) + "}"
  }

  ghost function Entries(m: Pts, ks: seq<int32>): string
    requires forall k | k in ks :: k in m
  {
    if ks == [] then "" else EntryLine(ks[0], Ascending(m[ks[0]])) + "\n" + Entries(m, ks[1..])
  }

  lemma BodyFirst(s: set<int32>, x: int32)
    requires IsLeast(s, x)
    ensures Body(Ascending(s)) == Show(x) + " " + Body(Ascending(s - {x}))
  {
    AscendingFirst(s, x);
  }

  lemma NothingPrinted()
    ensures Ascending({}) == [] && Body([]) == ""
  {
  }

  lemma EntriesFirst(m: Pts, s: set<int32>, x: int32)
    requires s <= m.Keys && IsLeast(s, x)
    ensures Entries(m, Ascending(s)) == EntryLine(x, Ascending(m[x])) + "\n" + Entries(m, Ascending(s - {x}))
  {
    AscendingFirst(s, x);
  }

  lemma EntryParts(t: string, k: int32, vals: seq<int32>)
    ensures t + (EntryLine(k, vals) + "\n") == t + Show(k) + ARROW + Body(vals) + "}" + "\n"
  {
  }

  /** A map as text: its entries in increasing order between two rules. */
  ghost function Render(m: Pts): string {
    RULE + "\n" + Entries(m, Ascending(m.Keys)) + RULE + "\n"
  }

  lemma {:induction false} TakesLine(a: string, t: string)
    requires '\n' !in a
    ensures TakeLine(a + "\n" + t) == (a, t, true)
  {
    if a == "" {
      assert (a + "\n" + t)[1..] == t;
    } else {
      TakesLine(a[1..], t);
      assert a[0] in a && a == [a[0]] + a[1..];
      assert (a + "\n" + t)[1..] == a[1..] + "\n" + t;
    }
  }

  /** A last line without a line break ends the stream. */
  lemma {:induction false} TakesLastLine(a: string)
    requires '\n' !in a
    ensures TakeLine(a) == (a, "", false)
  {
    if a != "" {
      assert a[0] in a && a == [a[0]] + a[1..];
      TakesLastLine(a[1..]);
    }
  }

  /** Lines, each with its line break. */
  function Unlines(ls: seq<string>): string {
    if ls == [] then "" else ls[0] + "\n" + Unlines(ls[1..])
  }

  lemma UnlinesFirst(ls: seq<string>, t: string)
    requires ls != []
    ensures Unlines(ls) + t == ls[0] + "\n" + (Unlines(ls[1..]) + t)
  {
  }

  /** Any lines in front of the first rule are skipped. */
  lemma {:induction false} SkipsHeader(ls: seq<string>, t: string)
    requires forall i :: 0 <= i < |ls| ==> ls[i] != RULE && '\n' !in ls[i]
    ensures SkipHeader(Unlines(ls) + (RULE + "\n" + t), true) == (t, true)
  {
    hide TakeLine;
    if ls == [] {
      assert Unlines(ls) + (RULE + "\n" + t) == RULE + "\n" + t;
      TakesLine(RULE, t);
    } else {
      UnlinesFirst(ls, RULE + "\n" + t);
      TakesLine(ls[0], Unlines(ls[1..]) + (RULE + "\n" + t));
      SkipsHeader(ls[1..], t);
    }
  }

  /** Without a rule everything is skipped. */
  lemma {:induction false} SkipsAll(ls: seq<string>, last: string)
    requires '\n' !in last && forall i :: 0 <= i < |ls| ==> ls[i] != RULE && '\n' !in ls[i]
    ensures SkipHeader(Unlines(ls) + last, true) == ("", false)
  {
    hide TakeLine;
    if ls == [] {
      assert Unlines(ls) + last == last;
      TakesLastLine(last);
    } else {
      UnlinesFirst(ls, last);
      TakesLine(ls[0], Unlines(ls[1..]) + last);
      SkipsAll(ls[1..], last);
    }
  }

  /** `d` stands in `s` at `i`. */
  predicate StandsAt(s: string, d: string, i: int) {
    0 <= i && i + |d| <= |s| && s[i..i + |d|] == d
  }

  lemma StandsInRest(s: string, d: string, j: int)
    requires s != "" && j > 0
    ensures StandsAt(s, d, j) <==> StandsAt(s[1..], d, j - 1)
  {
    if j + |d| <= |s| {
      assert s[1..][j - 1..j - 1 + |d|] == s[j..j + |d|];
    }
  }

  lemma FindStep(s: string, d: string)
    requires |s| >= |d| && s[..|d|] != d && s != ""
    ensures !StandsAt(s, d, 0) && Find(s, d) == if Find(s[1..], d) < 0 then -1 else Find(s[1..], d) + 1
  {
  }

  /** The search finds the first place, or there is none. */
  lemma {:induction false} FindIsFirst(s: string, d: string)
    ensures Find(s, d) >= 0 ==> StandsAt(s, d, Find(s, d)) && forall j :: StandsAt(s, d, j) ==> Find(s, d) <= j
    ensures Find(s, d) < 0 ==> forall j :: !StandsAt(s, d, j)
  {
    if |s| >= |d| && s[..|d|] != d && s != "" {
      FindStep(s, d);
      FindIsFirst(s[1..], d);
      hide Find;
      forall j | j > 0 ensures StandsAt(s, d, j) <==> StandsAt(s[1..], d, j - 1) {
        StandsInRest(s, d, j);
      }
      hide StandsAt;
      forall j | StandsAt(s, d, j) ensures j > 0 && StandsAt(s[1..], d, j - 1) {
        StandsFrom(s, d, j);
      }
    }
  }

  lemma StandsFrom(s: string, d: string, j: int)
    requires StandsAt(s, d, j)
    ensures j >= 0
  {
  }

  /** Reading stops at a rule, at a line without the arrow, and at one that does not end in a brace;
      any other line tells about the node in front of its first arrow. */
  lemma ParseLineIff(line: string)
    ensures ParseLine(line).Stop? <==>
      line == RULE || (forall i :: !StandsAt(line, ARROW, i)) || line[|line| - 1] != '}'
    ensures !ParseLine(line).Stop? ==> exists i: nat ::
      && StandsAt(line, ARROW, i) && (forall j :: StandsAt(line, ARROW, j) ==> i <= j)
      && ParseLine(line).node == Atoi(line[..i])
  {
    FindIsFirst(line, ARROW);
  }

  /** A line puts object `o` under node `k`. */
  predicate Says(line: string, k: int32, o: int32, stale: int32) {
    match ParseLine(line)
    case Stop => false
    case Facts(node, objs) => node == k && objs != "" && o in ReadObjs(objs, stale)
  }

  lemma AddSays(m: Pts, line: string, stale: int32, k: int32, o: int32)
    requires ParseLine(line).Facts?
    ensures
      var l := ParseLine(line);
      o in Get(AddLine(m, l.node, l.objs, stale), k) <==> o in Get(m, k) || Says(line, k, o, stale)
  {
    hide ParseLine, ReadObjs;
  }

  lemma ReadLinesStep(line: string, t: string, m: Pts, stale: int32)
    requires '\n' !in line
    ensures ReadLines(line + "\n" + t, true, m, stale) ==
      match ParseLine(line)
      case Stop => m
      case Facts(node, objs) => ReadLines(t, true, AddLine(m, node, objs, stale), stale)
  {
    hide ParseLine, AddLine, TakeLine;
    TakesLine(line, t);
  }

  /** Up to the first line that stops it, reading collects what any line says about a node, under one
      entry per node. */
  lemma {:induction false} ReadsWhatLinesSay(
    ls: seq<string>, stop: string, t: string, m: Pts, stale: int32, k: int32, o: int32
  )
    requires forall i :: 0 <= i < |ls| ==> '\n' !in ls[i] && ParseLine(ls[i]).Facts?
    requires '\n' !in stop && ParseLine(stop).Stop?
    ensures o in Get(ReadLines(Unlines(ls) + (stop + "\n" + t), true, m, stale), k) <==>
      o in Get(m, k) || exists i :: 0 <= i < |ls| && Says(ls[i], k, o, stale)
  {
    hide ParseLine, ReadLines, AddLine, Says;
    if ls == [] {
      assert Unlines(ls) + (stop + "\n" + t) == stop + "\n" + t;
      ReadLinesStep(stop, t, m, stale);
    } else {
      UnlinesFirst(ls, stop + "\n" + t);
      ReadLinesStep(ls[0], Unlines(ls[1..]) + (stop + "\n" + t), m, stale);
      AddSays(m, ls[0], stale, k, o);
      var l := ParseLine(ls[0]);
      ReadsWhatLinesSay(ls[1..], stop, t, AddLine(m, l.node, l.objs, stale), stale, k, o);
      SomeLineSays(ls, stale, k, o);
    }
  }

  lemma SomeLineSays(ls: seq<string>, stale: int32, k: int32, o: int32)
    requires ls != []
    ensures (exists i :: 0 <= i < |ls| && Says(ls[i], k, o, stale)) <==>
      Says(ls[0], k, o, stale) || exists i :: 0 <= i < |ls[1..]| && Says(ls[1..][i], k, o, stale)
  {
    hide Says;
    forall i | 0 < i < |ls| ensures ls[i] == ls[1..][i - 1] {
    }
    if i :| 0 <= i < |ls[1..]| && Says(ls[1..][i], k, o, stale) {
      assert ls[i + 1] == ls[1..][i];
    }
  }

  lemma FindHere(d: string, t: string)
    ensures Find(d + t, d) == 0
  {
  }

  lemma FindSkips(c: char, s: string, d: string)
    requires d != "" && c != d[0]
    ensures Find([c] + s, d) == if Find(s, d) < 0 then -1 else Find(s, d) + 1
  {
    if |d| <= |s| + 1 {
      assert ([c] + s)[..|d|][0] == c;
      assert ([c] + s)[1..] == s;
    }
  }

  lemma Regroup(a: string, b: string, c: string, d: string)
    ensures a + b + c + d == a + (b + c + d)
  {
  }

  lemma {:induction false} FindsFirst(a: string, d: string, t: string)
    requires d != "" && d[0] !in a
    ensures Find(a + d + t, d) == |a|
  {
    hide Find;
    if a == "" {
      FindHere(d, t);
      assert a + d + t == d + t;
    } else {
      var c, u := a[0], a[1..];
      assert c in a && a == [c] + u;
      FindsFirst(u, d, t);
      FindSkips(c, u + d + t, d);
      Regroup([c], u, d, t);
    }
  }

  lemma {:induction false} BodyEnds(vals: seq<int32>)
    ensures vals != [] ==> |Body(vals)| >= 2 && Body(vals)[|Body(vals)| - 1] == ' '
    ensures '\n' !in Body(vals)
  {
    if vals != [] {
      BodyEnds(vals[1..]);
    }
  }

  /** A printed line parses to its node and its objects without the last space; with no objects
      the brace is taken for them. */
  lemma ParsesEntry(k: int32, vals: seq<int32>)
    ensures ParseLine(EntryLine(k, vals)) ==
      Facts(k, if vals == [] then "}" else Body(vals)[..|Body(vals)| - 1])
  {
    hide Show, Body, Find;
    var line, pos := EntryLine(k, vals), |Show(k)|;
    BodyEnds(vals);
    assert line == Show(k) + ARROW + (Body(vals) + "}");
    FindsFirst(Show(k), ARROW, Body(vals) + "}");
    assert line[..pos] == Show(k);
    AtoiReadsBack(k);
    assert line[pos + |ARROW|..] == Body(vals) + "}";
    if vals != [] {
      assert line[pos + |ARROW|..|line| - 2] == Body(vals)[..|Body(vals)| - 1];
    } else {
      NoBody();
    }
  }

  lemma NoBody()
    ensures Body([]) == ""
  {
  }

  lemma {:induction false} ReadsObjs(vals: seq<int32>, prev: int32)
    requires vals != []
    ensures ReadObjs(Body(vals)[..|Body(vals)| - 1], prev) == Members(vals)
    ensures ReadObjs(" " + Body(vals)[..|Body(vals)| - 1], prev) == Members(vals)
  {
    hide Extract, Show;
    BodyEnds(vals);
    var rest := vals[1..];
    var objs := Body(vals)[..|Body(vals)| - 1];
    if rest == [] {
      assert objs == Show(vals[0]) + "";
      ExtractReadsBack(vals[0], "", prev);
    } else {
      BodyEnds(rest);
      var more := " " + Body(rest)[..|Body(rest)| - 1];
      assert objs == Show(vals[0]) + more;
      ExtractReadsBack(vals[0], more, prev);
      ReadsObjs(rest, vals[0]);
    }
    assert vals == [vals[0]] + rest;
  }

  /** An entry without objects reads back as the one object 0. */
  lemma ReadsBrace(prev: int32)
    ensures ReadObjs("}", prev) == {0}
  {
  }

  function Filled(s: set<int32>): set<int32> {
    if s == {} then {0} else s
  }

  lemma EntryIsOneLine(k: int32, vals: seq<int32>)
    ensures '\n' !in EntryLine(k, vals)
    ensures vals != [] ==> |Body(vals)| >= 2
  {
    BodyEnds(vals);
  }

  lemma AddsNew(m: Pts, k: int32, objs: string, stale: int32)
    requires k !in m && objs != ""
    ensures AddLine(m, k, objs, stale) == m[k := ReadObjs(objs, stale)]
  {
    assert {} + ReadObjs(objs, stale) == ReadObjs(objs, stale);
  }

  lemma ReadsEntry(m: Pts, k: int32, vals: seq<int32>, t: string, stale: int32)
    requires k !in m
    ensures ReadLines(EntryLine(k, vals) + "\n" + t, true, m, stale) ==
      ReadLines(t, true, m[k := Filled(Members(vals))], stale)
  {
    hide EntryLine, Body, ReadObjs, Get, TakeLine, ParseLine;
    var line := EntryLine(k, vals);
    EntryIsOneLine(k, vals);
    TakesLine(line, t);
    ParsesEntry(k, vals);
    AddsNew(m, k, if vals == [] then "}" else Body(vals)[..|Body(vals)| - 1], stale);
    if vals == [] {
      ReadsBrace(stale);
    } else {
      ReadsObjs(vals, stale);
      assert vals[0] in Members(vals);
    }
  }

  /** `m` restricted to `ks`, with the object 0 where an entry was empty. */
  ghost function FilledAt(m: Pts, ks: seq<int32>): Pts
    requires forall k | k in ks :: k in m
  {
    map k | k in ks :: Filled(m[k])
  }

  lemma FilledOneMore(m: Pts, ks: seq<int32>, acc: Pts)
    requires ks != [] && forall k | k in ks :: k in m
    ensures acc[ks[0] := Filled(m[ks[0]])] + FilledAt(m, ks[1..]) == acc + FilledAt(m, ks)
  {
    hide Filled;
    assert ks == [ks[0]] + ks[1..];
  }

  lemma ReadsRule(acc: Pts, stale: int32)
    ensures ReadLines(RULE + "\n", true, acc, stale) == acc
  {
    assert RULE + "\n" + "" == RULE + "\n";
    TakesLine(RULE, "");
  }

  lemma EntriesSplit(m: Pts, ks: seq<int32>, t: string)
    requires ks != [] && forall k | k in ks :: k in m
    ensures Entries(m, ks) + t == EntryLine(ks[0], Ascending(m[ks[0]])) + "\n" + (Entries(m, ks[1..]) + t)
  {
  }

  lemma {:induction false} ReadsEntries(m: Pts, ks: seq<int32>, acc: Pts, stale: int32)
    requires forall k | k in ks :: k in m && k !in acc
    requires forall i, j | 0 <= i < j < |ks| :: ks[i] < ks[j]
    ensures ReadLines(Entries(m, ks) + (RULE + "\n"), true, acc, stale) == acc + FilledAt(m, ks)
  {
    hide EntryLine, Filled, ReadLines, FilledAt;
    if ks == [] {
      NoEntries(m);
      assert Entries(m, ks) + (RULE + "\n") == RULE + "\n";
      ReadsRule(acc, stale);
    } else {
      var k, rest := ks[0], ks[1..];
      var vals := Ascending(m[k]);
      var t := Entries(m, rest) + (RULE + "\n");
      EntriesSplit(m, ks, RULE + "\n");
      ReadsEntry(acc, k, vals, t, stale);
      assert Members(vals) == m[k];
      ReadsEntries(m, rest, acc[k := Filled(m[k])], stale);
      FilledOneMore(m, ks, acc);
    }
  }

  lemma NoEntries(m: Pts)
    ensures Entries(m, []) == "" && FilledAt(m, []) == map[]
  {
  }

  /** `{0}` in place of every empty entry. */
  function FilledMap(m: Pts): Pts {
    map k | k in m :: Filled(m[k])
  }

  lemma FilledEverywhere(m: Pts, ks: seq<int32>)
    requires forall k :: k in ks <==> k in m
    ensures map[] + FilledAt(m, ks) == FilledMap(m)
  {
  }

  /** Reading back a printed map yields the map with `{0}` in place of every empty entry, so the
      map itself exactly when it has no empty entry. */
  lemma RoundTrip(m: Pts, stale: int32)
    ensures ReadText(Render(m), stale) == FilledMap(m)
    ensures ReadText(Render(m), stale) == m <==> NoEmptyEntries(m)
  {
    hide Entries, FilledMap, ReadLines, SkipHeader, Ascending, FilledAt;
    var ks := Ascending(m.Keys);
    var body := Entries(m, ks) + (RULE + "\n");
    assert Render(m) == RULE + "\n" + body;
    SkipsRule(body);
    ReadsEntries(m, ks, map[], stale);
    FilledEverywhere(m, ks);
    FilledIffNonEmpty(m);
  }

  lemma SkipsRule(t: string)
    ensures SkipHeader(RULE + "\n" + t, true) == (t, true)
  {
    TakesLine(RULE, t);
  }

  lemma FilledIffNonEmpty(m: Pts)
    ensures FilledMap(m) == m <==> NoEmptyEntries(m)
  {
    var filled := FilledMap(m);
    if filled == m {
      forall k | k in m ensures m[k] != {} {
        assert filled[k] == Filled(m[k]);
      }
    }
  }

  /** A node printed with no objects comes back pointing to object 0. */
  lemma EmptyEntryReadsAsZero(stale: int32)
    ensures ReadText(Render(map[1 := {}]), stale) == map[1 := {0}]
  {
    RoundTrip(map[1 := {}], stale);
  }

  /** What the first map has and the second has not, without entries that come to nothing. */
  function Difference(fi: Pts, fs: Pts): Pts {
    map v | v in fi && (v in fs ==> fi[v] - fs[v] != {}) :: fi[v] - Get(fs, v)
  }

  /** Object by object, and with an entry for every node that keeps an object or is not in the second
      map at all. */
  lemma DifferenceIff(fi: Pts, fs: Pts, v: int32)
    ensures forall o :: o in Get(Difference(fi, fs), v) <==> o in Get(fi, v) && o !in Get(fs, v)
    ensures v in Difference(fi, fs) <==> v in fi && (v !in fs || exists o :: o in fi[v] && o !in fs[v])
  {
    if v in fi && v in fs && fi[v] - fs[v] != {} {
      var o :| o in fi[v] - fs[v];
    }
    if v in fi && v in fs && exists o :: o in fi[v] && o !in fs[v] {
      var o :| o in fi[v] && o !in fs[v];
      assert o in fi[v] - fs[v];
    }
  }

  lemma ShownNumbers()
    ensures Show(1) == "1" && Show(3) == "3" && Show(20) == "20"
  {
    assert ShowNat(2) == "2";
  }

  lemma ShownObjects()
    ensures Body([3, 20]) == "3 20 "
  {
    hide Show;
    ShownNumbers();
    assert [3, 20][1..] == [20] && [20][1..] == [];
    assert Body([20]) == "20 ";
  }

  lemma InOrder()
    ensures Ascending({20, 3}) == [3, 20] && Ascending({1}) == [1]
  {
    AscendingFirst({20, 3}, 3);
    assert {20, 3} - {3} == {20};
    AscendingFirst({20}, 20);
    AscendingFirst({1}, 1);
    assert {20} - {20} == {} && {1} - {1} == {};
    NothingPrinted();
  }

  lemma ShownLine()
    ensures EntryLine(1, [3, 20]) == "1 -> { 3 20 }"
  {
    hide Show, Body;
    ShownNumbers();
    ShownObjects();
  }

  /** A map of one entry, as it is printed. */
  lemma PrintedForm()
    ensures Render(map[1 := {20, 3}]) == "------" + "\n" + ("1 -> { 3 20 }" + "\n") + "------" + "\n"
  {
    hide Ascending, EntryLine;
    var m := map[1 := {20, 3}];
    InOrder();
    ShownLine();
    assert [1][1..] == [] && m.Keys == {1};
    var entry := EntryLine(1, [3, 20]) + "\n";
    assert Entries(m, [1]) == entry + Entries(m, []) == entry;
  }
}
