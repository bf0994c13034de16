/** The program that subtracts one points-to file from another: reading, subtracting, printing. */
module PtsDiff {
  import opened Decimal
  import opened PtsText

  /** A character stream; it stays good until an operation meets the end or fails. */
  class InStream {
    var text: string
    var good: bool

    constructor (text: string)
      ensures this.text == text && good
    {
      this.text, good := text, true;
    }

    method GetLine() returns (line: string)
      requires good
      modifies this
      ensures (line, text, good) == TakeLine(old(text))
    {
      var r := TakeLine(text);
      line, text, good := r.0, r.1, r.2;
    }

    method ExtractInt(prev: int32) returns (x: int32)
      requires good
      modifies this
      ensures (x, text, good) == Extract(old(text), prev)
    {
      var r := Extract(text, prev);
      x, text, good := r.0, r.1, r.2;
    }
  }

  method ReadPtsFromFile(F: InStream, nodePtsMap0: Pts, stale: int32) returns (nodePtsMap: Pts)
    modifies F
    ensures var h := SkipHeader(old(F.text), old(F.good));
      nodePtsMap == ReadLines(h.0, h.1, nodePtsMap0, stale)
  {
    nodePtsMap := nodePtsMap0;
    var line := "";
    ghost var h := SkipHeader(F.text, F.good);
    while F.good
      invariant SkipHeader(F.text, F.good) == h
      decreases |F.text|, F.good
    {
      line := F.GetLine();
      if line == RULE {
        break;
      }
    }
    assert h == (F.text, F.good);
    while F.good
      invariant ReadLines(F.text, F.good, nodePtsMap, stale) == ReadLines(h.0, h.1, nodePtsMap0, stale)
      decreases |F.text|, F.good
    {
      line := F.GetLine();
      if line == RULE {
        break;
      }
      var pos := Find(line, ARROW);
      if pos < 0 {
        break;
      }
      if line[|line| - 1] != '}' {
        break;
      }
      var nodeId := Atoi(line[..pos]);
      var objs := ObjsFrom(line, pos + |ARROW|);
      if objs != "" {
        nodePtsMap := ReadObjects(objs, nodeId, nodePtsMap, stale);
      }
    }
  }

  /** The loop that extracts one line's objects into the node's set. */
  method ReadObjects(objs: string, nodeId: int32, nodePtsMap0: Pts, stale: int32) returns (nodePtsMap: Pts)
    ensures nodePtsMap == nodePtsMap0[nodeId := Get(nodePtsMap0, nodeId) + ReadObjs(objs, stale)]
  {
    hide ReadObjs, SkipSpace, Signed;
    nodePtsMap := nodePtsMap0;
    var ss := new InStream(objs);
    var obj := stale;
    ghost var taken: set<int32> := {};
    while ss.good
      invariant taken + (if ss.good then ReadObjs(ss.text, obj) else {}) == ReadObjs(objs, stale)
      invariant nodePtsMap == if taken == {} then nodePtsMap0
                              else nodePtsMap0[nodeId := Get(nodePtsMap0, nodeId) + taken]
      invariant !ss.good ==> taken != {}
      decreases |ss.text|, ss.good
    {
      ReadObjsStep(ss.text, obj);
      obj := ss.ExtractInt(obj);
      assert Get(nodePtsMap, nodeId) + {obj} == Get(nodePtsMap0, nodeId) + (taken + {obj});
      nodePtsMap := nodePtsMap[nodeId := Get(nodePtsMap, nodeId) + {obj}];
      taken := taken + {obj};
    }
  }

  /** The subtraction: per node, the objects the first map has and the second has not. */
  method Subtract(fi: Pts, fs: Pts) returns (diff: Pts)
    ensures diff == Difference(fi, fs) && (NoEmptyEntries(fi) ==> NoEmptyEntries(diff))
  {
    diff := map[];
    var rest := fi.Keys;
    while rest != {}
      invariant rest <= fi.Keys && DifferenceOn(fi, fs, fi.Keys - rest, diff)
    {
      var v :| v in rest;
      DifferenceNext(fi, fs, fi.Keys - rest, diff, v);
      assert fi.Keys - (rest - {v}) == fi.Keys - rest + {v};
      if v !in fs {
        diff := diff[v := fi[v]];
      } else {
        diff := SubtractObjects(diff, v, fi[v], fs[v]);
      }
      rest := rest - {v};
    }
  }

  /** The entries of the nodes `done` are final and no other node has one yet. */
  ghost predicate DifferenceOn(fi: Pts, fs: Pts, done: set<int32>, diff: Pts) {
    && (forall v | v in diff :: v in done && v in Difference(fi, fs) && diff[v] == Difference(fi, fs)[v])
    && (forall v | v in done && v in Difference(fi, fs) :: v in diff)
  }

  lemma DifferenceNext(fi: Pts, fs: Pts, done: set<int32>, diff: Pts, v: int32)
    requires DifferenceOn(fi, fs, done, diff) && v in fi && v !in done
    ensures v in Difference(fi, fs) ==> DifferenceOn(fi, fs, done + {v}, diff[v := fi[v] - Get(fs, v)])
    ensures v !in Difference(fi, fs) ==> DifferenceOn(fi, fs, done + {v}, diff)
    ensures v !in fs ==> v in Difference(fi, fs) && fi[v] - Get(fs, v) == fi[v]
    ensures v in fs ==> (v in Difference(fi, fs) <==> !(fi[v] <= fs[v]))
    ensures v !in diff
  {
    NothingLeft(fi[v], Get(fs, v));
  }

  lemma NothingLeft(a: set<int32>, b: set<int32>)
    ensures a - b == {} <==> a <= b
  {
    if a - b == {} {
      forall x | x in a ensures x in b {
        assert x !in a - b;
      }
    }
  }

  method SubtractObjects(diff0: Pts, v: int32, objs: set<int32>, others: set<int32>) returns (diff: Pts)
    requires v !in diff0
    ensures diff == if objs <= others then diff0 else diff0[v := objs - others]
  {
    diff := diff0;
    var rest := objs;
    ghost var taken: set<int32> := {};
    while rest != {}
      invariant rest <= objs && taken == objs - rest - others
      invariant diff == if taken == {} then diff0 else diff0[v := taken]
    {
      var pt :| pt in rest;
      rest := rest - {pt};
      if pt !in others {
        assert Get(diff, v) == taken;
        diff := diff[v := Get(diff, v) + {pt}];
        taken := taken + {pt};
      }
    }
    assert taken == objs - others;
    NothingLeft(objs, others);
  }

  /** The text printed for a map, nodes and objects in increasing order. */
  method Print(m: Pts) returns (text: string)
    ensures text == Render(m)
  {
    hide Ascending, Entries, EntryLine, Body, Show;
    text := RULE + "\n";
    var rest := m.Keys;
    ghost var ks := Ascending(m.Keys);
    while rest != {}
      invariant rest <= m.Keys
      invariant text + Entries(m, Ascending(rest)) == RULE + "\n" + Entries(m, ks)
    {
      LeastExists(rest);
      var v :| v in rest && IsLeast(rest, v);
      EntriesFirst(m, rest, v);
      EntryParts(text, v, Ascending(m[v]));
      ghost var text0, entry := text, EntryLine(v, Ascending(m[v])) + "\n";
      text := text + Show(v) + ARROW;
      text := PrintObjects(text, m[v]);
      text := text + "}" + "\n";
      assert text0 + (entry + Entries(m, Ascending(rest - {v}))) == text + Entries(m, Ascending(rest - {v}));
      rest := rest - {v};
    }
    NoEntries(m);
    NothingPrinted();
    text := text + RULE + "\n";
  }

  method PrintObjects(before: string, objs: set<int32>) returns (text: string)
    ensures text == before + Body(Ascending(objs))
  {
    hide Ascending, Body, Show;
    text := before;
    var rest := objs;
    while rest != {}
      invariant rest <= objs && text + Body(Ascending(rest)) == before + Body(Ascending(objs))
    {
      LeastExists(rest);
      var pt :| pt in rest && IsLeast(rest, pt);
      BodyFirst(rest, pt);
      assert text + (Show(pt) + " " + Body(Ascending(rest - {pt}))) ==
             text + Show(pt) + " " + Body(Ascending(rest - {pt}));
      text := text + Show(pt) + " ";
      rest := rest - {pt};
    }
    NothingPrinted();
  }

  /** The whole program: the file written reads back as the difference of the two files read. */
  method Diff(textFi: string, textFs: string, stale: int32) returns (output: string)
    ensures output == Render(Difference(ReadText(textFi, stale), ReadText(textFs, stale)))
    ensures ReadText(output, stale) == Difference(ReadText(textFi, stale), ReadText(textFs, stale))
  {
    var fileFi := new InStream(textFi);
    var fileFs := new InStream(textFs);
    var fi := ReadPtsFromFile(fileFi, map[], stale);
    var fs := ReadPtsFromFile(fileFs, map[], stale);
    var h := SkipHeader(textFi, true);
    ReadsNoEmptyEntries(h.0, h.1, map[], stale);
    var diff := Subtract(fi, fs);
    output := Print(diff);
    RoundTrip(diff, stale);
  }
}
