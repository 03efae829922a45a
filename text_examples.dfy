// Worked examples of the syllabifier on concrete words and sentences.
//
// Each example is evaluated stage by stage, following the pipeline of
// textUtils.ts: lower-casing, digraph hiding, cluster marking, splitting at
// '-', the regex scan of every part, restoring and upper-casing, and for a
// sentence the whitespace split, punctuation peeling and space interleaving.
// A stage lemma takes the stage's input as a parameter pinned to a literal,
// so that each step is one small, separately checked rewrite; a rewrite
// that finds nothing to replace is discharged by HideDigraphsKeeps,
// MarkClustersKeeps or RestoreKeeps. The last lemma of each example
// composes the stages.

module TextExamples {
  import opened Chars
  import opened Types
  import opened TextUtils

  lemma WordGroupsOf(ws: seq<string>, gs: seq<seq<string>>)
    requires |ws| == |gs| && forall i :: 0 <= i < |ws| ==> WordTokens(ws[i]) == gs[i]
    ensures WordGroups(ws) == gs
  {
  }

  lemma FinishAllOf(ts: seq<string>, fs: seq<string>)
    requires |ts| == |fs| && forall i :: 0 <= i < |ts| ==> Finish(ts[i]) == fs[i]
    ensures FinishAll(ts) == fs
  {
  }

  lemma PartsTokensOne(p: seq<string>)
    requires |p| == 1
    ensures PartsTokens(p) == PartTokens(p[0])
  {
    assert p[..0] == [];
  }

  lemma PartsTokensTwo(p: seq<string>)
    requires |p| == 2
    ensures PartsTokens(p) == PartTokens(p[0]) + PartTokens(p[1])
  {
    assert p[..1] == [p[0]];
    PartsTokensOne(p[..1]);
  }

  lemma CasaLower(w: string)
    requires w == "CASA"
    ensures Lower(w) == "casa"
  {

  }

  lemma CasaSplit(w: string)
    requires w == "casa"
    ensures SplitOn(w, '-') == ["casa"]
  {
    assert IndexFrom(w, '-', 0) == 4;
  }

  lemma CasaPart0At0(s: string)
    requires s == "casa"
    ensures MatchAt(s, 0) == Some(2)
  {
    assert s[0] == 'c';
    assert s[1] == 'a';
    assert s[2] == 's';
    assert s[3] == 'a';
    assert OnsetEnd(s, 1) == 1;
    assert OnsetEnd(s, 0) == 1;
    assert VowelEnd(s, 2) == 2;
    assert VowelEnd(s, 1) == 2;
    assert CodaEnd(s, 2) == 2;
  }

  lemma CasaPart0At2(s: string)
    requires s == "casa"
    ensures MatchAt(s, 2) == Some(4)
  {
    assert s[2] == 's';
    assert s[3] == 'a';
    assert OnsetEnd(s, 3) == 3;
    assert OnsetEnd(s, 2) == 3;
    assert VowelEnd(s, 4) == 4;
    assert VowelEnd(s, 3) == 4;
    assert CodaEnd(s, 4) == 4;
  }

  lemma CasaPart0(s: string)
    requires s == "casa"
    ensures PartTokens(s) == ["ca", "sa"]
  {
    CasaPart0At0(s);
    assert s[0..2] == "ca";
    CasaPart0At2(s);
    assert s[2..4] == "sa";
    assert ScanFrom(s, 4) == [];
    assert ScanFrom(s, 2) == ["sa"];
    assert ScanFrom(s, 0) == ["ca", "sa"];
    assert GlobalMatch(s) == Some(["ca", "sa"]);
  }

  lemma CasaParts(p: seq<string>)
    requires p == ["casa"]
    ensures PartsTokens(p) == ["ca", "sa"]
  {
    PartsTokensOne(p);
    CasaPart0(p[0]);
  }

  lemma CasaFinishAll(ts: seq<string>)
    requires ts == ["ca", "sa"]
    ensures FinishAll(ts) == ["CA", "SA"]
  {
    var fs := ["CA", "SA"];
    forall i | 0 <= i < |ts| ensures Finish(ts[i]) == fs[i] {
      if i == 0 {
        RestoreKeeps(ts[0]);
        assert Upper("ca") == "CA";
      } else {
        RestoreKeeps(ts[1]);
        assert Upper("sa") == "SA";
      }
    }
    FinishAllOf(ts, fs);
  }

  lemma Casa(w: string)
    requires w == "CASA"
    ensures Syllabify(w) == ["CA", "SA"]
  {
    CasaLower(w);
    HideDigraphsKeeps(Lower(w));
    MarkClustersKeeps(HideDigraphs(Lower(w)));
    CasaSplit(Prepare(w));
    CasaParts(SplitOn(Prepare(w), '-'));
    CasaFinishAll(PartsTokens(SplitOn(Prepare(w), '-')));
  }

  lemma RobotLower(w: string)
    requires w == "ROBOT"
    ensures Lower(w) == "robot"
  {

  }

  lemma RobotSplit(w: string)
    requires w == "robot"
    ensures SplitOn(w, '-') == ["robot"]
  {
    assert IndexFrom(w, '-', 0) == 5;
  }

  lemma RobotPart0At0(s: string)
    requires s == "robot"
    ensures MatchAt(s, 0) == Some(2)
  {
    assert s[0] == 'r';
    assert s[1] == 'o';
    assert s[2] == 'b';
    assert s[3] == 'o';
    assert OnsetEnd(s, 1) == 1;
    assert OnsetEnd(s, 0) == 1;
    assert VowelEnd(s, 2) == 2;
    assert VowelEnd(s, 1) == 2;
    assert CodaEnd(s, 2) == 2;
  }

  lemma RobotPart0At2(s: string)
    requires s == "robot"
    ensures MatchAt(s, 2) == Some(4)
  {
    assert s[2] == 'b';
    assert s[3] == 'o';
    assert s[4] == 't';
    assert OnsetEnd(s, 3) == 3;
    assert OnsetEnd(s, 2) == 3;
    assert VowelEnd(s, 4) == 4;
    assert VowelEnd(s, 3) == 4;
    assert CodaEnd(s, 4) == 4;
  }

  lemma RobotPart0At4(s: string)
    requires s == "robot"
    ensures MatchAt(s, 4) == None
  {
    assert s[4] == 't';
    assert OnsetEnd(s, 5) == 5;
    assert OnsetEnd(s, 4) == 5;
  }

  lemma RobotPart0(s: string)
    requires s == "robot"
    ensures PartTokens(s) == ["ro", "bo"]
  {
    RobotPart0At0(s);
    assert s[0..2] == "ro";
    RobotPart0At2(s);
    assert s[2..4] == "bo";
    RobotPart0At4(s);
    assert ScanFrom(s, 5) == [];
    assert ScanFrom(s, 4) == [];
    assert ScanFrom(s, 2) == ["bo"];
    assert ScanFrom(s, 0) == ["ro", "bo"];
    assert GlobalMatch(s) == Some(["ro", "bo"]);
  }

  lemma RobotParts(p: seq<string>)
    requires p == ["robot"]
    ensures PartsTokens(p) == ["ro", "bo"]
  {
    PartsTokensOne(p);
    RobotPart0(p[0]);
  }

  lemma RobotFinishAll(ts: seq<string>)
    requires ts == ["ro", "bo"]
    ensures FinishAll(ts) == ["RO", "BO"]
  {
    var fs := ["RO", "BO"];
    forall i | 0 <= i < |ts| ensures Finish(ts[i]) == fs[i] {
      if i == 0 {
        RestoreKeeps(ts[0]);
        assert Upper("ro") == "RO";
      } else {
        RestoreKeeps(ts[1]);
        assert Upper("bo") == "BO";
      }
    }
    FinishAllOf(ts, fs);
  }

  lemma Robot(w: string)
    requires w == "ROBOT"
    ensures Syllabify(w) == ["RO", "BO"]
  {
    RobotLower(w);
    HideDigraphsKeeps(Lower(w));
    MarkClustersKeeps(HideDigraphs(Lower(w)));
    RobotSplit(Prepare(w));
    RobotParts(SplitOn(Prepare(w), '-'));
    RobotFinishAll(PartsTokens(SplitOn(Prepare(w), '-')));
  }

  lemma CarroLower(w: string)
    requires w == "CARRO"
    ensures Lower(w) == "carro"
  {

  }

  lemma CarroMark(w: string)
    requires w == "carro"
    ensures MarkClusters(w) == "car-ro"
  {
    assert ReplaceAll("carro", "rr", "r-r") == "car-ro";
    ReplaceAllAbsent("car-ro", "ss", "s-s", 's');
    ReplaceAllAbsent("car-ro", "sc", "s-c", 's');
    ReplaceAllAbsent("car-ro", "s\U{00E7}", "s-\U{00E7}", 's');
    ReplaceAllAbsent("car-ro", "xc", "x-c", 'x');
  }

  lemma CarroSplit(w: string)
    requires w == "car-ro"
    ensures SplitOn(w, '-') == ["car", "ro"]
  {
    assert IndexFrom(w, '-', 3) == 3;
    assert IndexFrom(w, '-', 2) == 3;
    assert IndexFrom(w, '-', 1) == 3;
    assert IndexFrom(w, '-', 0) == 3;
    assert w[..3] == "car";
    CarroSplit1(w[4..]);
  }

  lemma CarroSplit1(w: string)
    requires w == "ro"
    ensures SplitOn(w, '-') == ["ro"]
  {
    assert IndexFrom(w, '-', 0) == 2;
  }

  lemma CarroPart0At0(s: string)
    requires s == "car"
    ensures MatchAt(s, 0) == Some(3)
  {
    assert s[0] == 'c';
    assert s[1] == 'a';
    assert s[2] == 'r';
    assert OnsetEnd(s, 1) == 1;
    assert OnsetEnd(s, 0) == 1;
    assert VowelEnd(s, 2) == 2;
    assert VowelEnd(s, 1) == 2;
    assert CodaEnd(s, 2) == 3;
  }

  lemma CarroPart0(s: string)
    requires s == "car"
    ensures PartTokens(s) == ["car"]
  {
    CarroPart0At0(s);
    assert s[0..3] == "car";
    assert ScanFrom(s, 3) == [];
    assert ScanFrom(s, 0) == ["car"];
    assert GlobalMatch(s) == Some(["car"]);
  }

  lemma CarroPart1At0(s: string)
    requires s == "ro"
    ensures MatchAt(s, 0) == Some(2)
  {
    assert s[0] == 'r';
    assert s[1] == 'o';
    assert OnsetEnd(s, 1) == 1;
    assert OnsetEnd(s, 0) == 1;
    assert VowelEnd(s, 2) == 2;
    assert VowelEnd(s, 1) == 2;
    assert CodaEnd(s, 2) == 2;
  }

  lemma CarroPart1(s: string)
    requires s == "ro"
    ensures PartTokens(s) == ["ro"]
  {
    CarroPart1At0(s);
    assert s[0..2] == "ro";
    assert ScanFrom(s, 2) == [];
    assert ScanFrom(s, 0) == ["ro"];
    assert GlobalMatch(s) == Some(["ro"]);
  }

  lemma CarroParts(p: seq<string>)
    requires p == ["car", "ro"]
    ensures PartsTokens(p) == ["car", "ro"]
  {
    PartsTokensTwo(p);
    CarroPart0(p[0]);
    CarroPart1(p[1]);
  }

  lemma CarroFinishAll(ts: seq<string>)
    requires ts == ["car", "ro"]
    ensures FinishAll(ts) == ["CAR", "RO"]
  {
    var fs := ["CAR", "RO"];
    forall i | 0 <= i < |ts| ensures Finish(ts[i]) == fs[i] {
      if i == 0 {
        RestoreKeeps(ts[0]);
        assert Upper("car") == "CAR";
      } else {
        RestoreKeeps(ts[1]);
        assert Upper("ro") == "RO";
      }
    }
    FinishAllOf(ts, fs);
  }

  lemma Carro(w: string)
    requires w == "CARRO"
    ensures Syllabify(w) == ["CAR", "RO"]
  {
    CarroLower(w);
    HideDigraphsKeeps(Lower(w));
    CarroMark(HideDigraphs(Lower(w)));
    CarroSplit(Prepare(w));
    CarroParts(SplitOn(Prepare(w), '-'));
    CarroFinishAll(PartsTokens(SplitOn(Prepare(w), '-')));
  }

  lemma SolBrilhaTrim(s: string)
    requires s == "O SOL BRILHA."
    ensures Trim(s) == "O SOL BRILHA."
  {
    assert !IsSpace(s[0]) && !IsSpace(s[|s| - 1]);
  }

  lemma SolBrilhaWords0(w: string)
    requires w == "O SOL BRILHA."
    ensures SplitWs(w) == ["O", "SOL", "BRILHA."]
  {
    assert SpaceIndex(w, 1) == 1;
    assert SpaceIndex(w, 0) == 1;
    assert SpaceRunEnd(w, 2) == 2;
    assert SpaceRunEnd(w, 1) == 2;
    assert w[..1] == "O";
    SolBrilhaWords1(w[2..]);
  }

  lemma SolBrilhaWords1(w: string)
    requires w == "SOL BRILHA."
    ensures SplitWs(w) == ["SOL", "BRILHA."]
  {
    assert SpaceIndex(w, 3) == 3;
    assert SpaceIndex(w, 2) == 3;
    assert SpaceIndex(w, 1) == 3;
    assert SpaceIndex(w, 0) == 3;
    assert SpaceRunEnd(w, 4) == 4;
    assert SpaceRunEnd(w, 3) == 4;
    assert w[..3] == "SOL";
    SolBrilhaWords2(w[4..]);
  }

  lemma SolBrilhaWords2(w: string)
    requires w == "BRILHA."
    ensures SplitWs(w) == ["BRILHA."]
  {
    assert SpaceIndex(w, 7) == 7;
    assert SpaceIndex(w, 6) == 7;
    assert SpaceIndex(w, 5) == 7;
    assert SpaceIndex(w, 4) == 7;
    assert SpaceIndex(w, 3) == 7;
    assert SpaceIndex(w, 2) == 7;
    assert SpaceIndex(w, 1) == 7;
    assert SpaceIndex(w, 0) == 7;
  }

  lemma SolBrilhaW0Punct(w: string)
    requires w == "O"
    ensures PunctSplit(w) == ("O", "")
  {
    assert w[0] == 'O';
    assert forall k :: 0 <= k < |w| ==> !IsLineTerminator(w[k]);
    assert w[..1] == "O";
    assert PunctRunStart(w[..1]) == 1;
  }

  lemma SolBrilhaW0WordLower(w: string)
    requires w == "O"
    ensures Lower(w) == "o"
  {

  }

  lemma SolBrilhaW0WordSplit(w: string)
    requires w == "o"
    ensures SplitOn(w, '-') == ["o"]
  {
    assert IndexFrom(w, '-', 0) == 1;
  }

  lemma SolBrilhaW0WordPart0At0(s: string)
    requires s == "o"
    ensures MatchAt(s, 0) == Some(1)
  {
    assert s[0] == 'o';
    assert OnsetEnd(s, 0) == 0;
    assert VowelEnd(s, 1) == 1;
    assert VowelEnd(s, 0) == 1;
    assert CodaEnd(s, 1) == 1;
  }

  lemma SolBrilhaW0WordPart0(s: string)
    requires s == "o"
    ensures PartTokens(s) == ["o"]
  {
    SolBrilhaW0WordPart0At0(s);
    assert s[0..1] == "o";
    assert ScanFrom(s, 1) == [];
    assert ScanFrom(s, 0) == ["o"];
    assert GlobalMatch(s) == Some(["o"]);
  }

  lemma SolBrilhaW0WordParts(p: seq<string>)
    requires p == ["o"]
    ensures PartsTokens(p) == ["o"]
  {
    PartsTokensOne(p);
    SolBrilhaW0WordPart0(p[0]);
  }

  lemma SolBrilhaW0WordFinishAll(ts: seq<string>)
    requires ts == ["o"]
    ensures FinishAll(ts) == ["O"]
  {
    var fs := ["O"];
    forall i | 0 <= i < |ts| ensures Finish(ts[i]) == fs[i] {
      RestoreKeeps(ts[0]);
      assert Upper("o") == "O";
    }
    FinishAllOf(ts, fs);
  }

  lemma SolBrilhaW0Word(w: string)
    requires w == "O"
    ensures Syllabify(w) == ["O"]
  {
    SolBrilhaW0WordLower(w);
    HideDigraphsKeeps(Lower(w));
    MarkClustersKeeps(HideDigraphs(Lower(w)));
    SolBrilhaW0WordSplit(Prepare(w));
    SolBrilhaW0WordParts(SplitOn(Prepare(w), '-'));
    SolBrilhaW0WordFinishAll(PartsTokens(SplitOn(Prepare(w), '-')));
  }

  lemma SolBrilhaW0Attach(syl: seq<string>, p: string)
    requires syl == ["O"] && p == ""
    ensures Attach(syl, p) == ["O"]
  {

  }

  lemma SolBrilhaW0Tokens(w: string)
    requires w == "O"
    ensures WordTokens(w) == ["O"]
  {
    SolBrilhaW0Punct(w);
    SolBrilhaW0Word(PunctSplit(w).0);
    SolBrilhaW0Attach(Syllabify(PunctSplit(w).0), PunctSplit(w).1);
  }

  lemma SolBrilhaW1Punct(w: string)
    requires w == "SOL"
    ensures PunctSplit(w) == ("SOL", "")
  {
    assert w[0] == 'S';
    assert w[1] == 'O';
    assert w[2] == 'L';
    assert forall k :: 0 <= k < |w| ==> !IsLineTerminator(w[k]);
    assert w[..3] == "SOL";
    assert PunctRunStart(w[..3]) == 3;
  }

  lemma SolBrilhaW1WordLower(w: string)
    requires w == "SOL"
    ensures Lower(w) == "sol"
  {

  }

  lemma SolBrilhaW1WordSplit(w: string)
    requires w == "sol"
    ensures SplitOn(w, '-') == ["sol"]
  {
    assert IndexFrom(w, '-', 0) == 3;
  }

  lemma SolBrilhaW1WordPart0At0(s: string)
    requires s == "sol"
    ensures MatchAt(s, 0) == Some(3)
  {
    assert s[0] == 's';
    assert s[1] == 'o';
    assert s[2] == 'l';
    assert OnsetEnd(s, 1) == 1;
    assert OnsetEnd(s, 0) == 1;
    assert VowelEnd(s, 2) == 2;
    assert VowelEnd(s, 1) == 2;
    assert CodaEnd(s, 2) == 3;
  }

  lemma SolBrilhaW1WordPart0(s: string)
    requires s == "sol"
    ensures PartTokens(s) == ["sol"]
  {
    SolBrilhaW1WordPart0At0(s);
    assert s[0..3] == "sol";
    assert ScanFrom(s, 3) == [];
    assert ScanFrom(s, 0) == ["sol"];
    assert GlobalMatch(s) == Some(["sol"]);
  }

  lemma SolBrilhaW1WordParts(p: seq<string>)
    requires p == ["sol"]
    ensures PartsTokens(p) == ["sol"]
  {
    PartsTokensOne(p);
    SolBrilhaW1WordPart0(p[0]);
  }

  lemma SolBrilhaW1WordFinishAll(ts: seq<string>)
    requires ts == ["sol"]
    ensures FinishAll(ts) == ["SOL"]
  {
    var fs := ["SOL"];
    forall i | 0 <= i < |ts| ensures Finish(ts[i]) == fs[i] {
      RestoreKeeps(ts[0]);
      assert Upper("sol") == "SOL";
    }
    FinishAllOf(ts, fs);
  }

  lemma SolBrilhaW1Word(w: string)
    requires w == "SOL"
    ensures Syllabify(w) == ["SOL"]
  {
    SolBrilhaW1WordLower(w);
    HideDigraphsKeeps(Lower(w));
    MarkClustersKeeps(HideDigraphs(Lower(w)));
    SolBrilhaW1WordSplit(Prepare(w));
    SolBrilhaW1WordParts(SplitOn(Prepare(w), '-'));
    SolBrilhaW1WordFinishAll(PartsTokens(SplitOn(Prepare(w), '-')));
  }

  lemma SolBrilhaW1Attach(syl: seq<string>, p: string)
    requires syl == ["SOL"] && p == ""
    ensures Attach(syl, p) == ["SOL"]
  {

  }

  lemma SolBrilhaW1Tokens(w: string)
    requires w == "SOL"
    ensures WordTokens(w) == ["SOL"]
  {
    SolBrilhaW1Punct(w);
    SolBrilhaW1Word(PunctSplit(w).0);
    SolBrilhaW1Attach(Syllabify(PunctSplit(w).0), PunctSplit(w).1);
  }

  lemma SolBrilhaW2Punct(w: string)
    requires w == "BRILHA."
    ensures PunctSplit(w) == ("BRILHA", ".")
  {
    assert w[0] == 'B';
    assert w[1] == 'R';
    assert w[2] == 'I';
    assert w[3] == 'L';
    assert w[4] == 'H';
    assert w[5] == 'A';
    assert w[6] == '.';
    assert forall k :: 0 <= k < |w| ==> !IsLineTerminator(w[k]);
    assert w[..7] == "BRILHA.";
    assert w[..6] == "BRILHA";
    assert PunctRunStart(w[..6]) == 6;
    assert PunctRunStart(w[..7]) == 6;
  }

  lemma SolBrilhaW2WordLower(w: string)
    requires w == "BRILHA"
    ensures Lower(w) == "brilha"
  {

  }

  /** The one digraph of "brilha" becomes its placeholder. */
  lemma BrilhaHidesLh()
    ensures ReplaceAll("brilha", "lh", "\U{00A3}") == "bri\U{00A3}a"
  {
  }

  lemma SolBrilhaW2WordHide(w: string)
    requires w == "brilha"
    ensures HideDigraphs(w) == "bri\U{00A3}a"
  {
    BrilhaHidesLh();
    ReplaceAllAbsent("bri\U{00A3}a", "nh", "\U{00A2}", 'n');
    ReplaceAllAbsent("bri\U{00A3}a", "ch", "\U{00A7}", 'c');
    ReplaceAllAbsent("bri\U{00A3}a", "qu", "\U{00AC}", 'q');
    ReplaceAllAbsent("bri\U{00A3}a", "gu", "\U{00B5}", 'g');
  }

  lemma SolBrilhaW2WordSplit(w: string)
    requires w == "bri\U{00A3}a"
    ensures SplitOn(w, '-') == ["bri\U{00A3}a"]
  {
    assert IndexFrom(w, '-', 0) == 5;
  }

  lemma SolBrilhaW2WordPart0At0(s: string)
    requires s == "bri\U{00A3}a"
    ensures MatchAt(s, 0) == Some(3)
  {
    assert s[0] == 'b';
    assert s[1] == 'r';
    assert s[2] == 'i';
    assert s[3] == '\U{00A3}';
    assert s[4] == 'a';
    assert OnsetEnd(s, 2) == 2;
    assert OnsetEnd(s, 1) == 2;
    assert OnsetEnd(s, 0) == 2;
    assert VowelEnd(s, 3) == 3;
    assert VowelEnd(s, 2) == 3;
    assert CodaEnd(s, 3) == 3;
  }

  lemma SolBrilhaW2WordPart0At3(s: string)
    requires s == "bri\U{00A3}a"
    ensures MatchAt(s, 3) == Some(5)
  {
    assert s[3] == '\U{00A3}';
    assert s[4] == 'a';
    assert OnsetEnd(s, 3) == 3;
    assert VowelEnd(s, 5) == 5;
    assert VowelEnd(s, 4) == 5;
    assert CodaEnd(s, 5) == 5;
  }

  lemma SolBrilhaW2WordPart0(s: string)
    requires s == "bri\U{00A3}a"
    ensures PartTokens(s) == ["bri", "\U{00A3}a"]
  {
    SolBrilhaW2WordPart0At0(s);
    assert s[0..3] == "bri";
    SolBrilhaW2WordPart0At3(s);
    assert s[3..5] == "\U{00A3}a";
    assert ScanFrom(s, 5) == [];
    assert ScanFrom(s, 3) == ["\U{00A3}a"];
    assert ScanFrom(s, 0) == ["bri", "\U{00A3}a"];
    assert GlobalMatch(s) == Some(["bri", "\U{00A3}a"]);
  }

  lemma SolBrilhaW2WordParts(p: seq<string>)
    requires p == ["bri\U{00A3}a"]
    ensures PartsTokens(p) == ["bri", "\U{00A3}a"]
  {
    PartsTokensOne(p);
    SolBrilhaW2WordPart0(p[0]);
  }

  lemma SolBrilhaW2WordFinish1(t: string)
    requires t == "\U{00A3}a"
    ensures Finish(t) == "LHA"
  {
    assert ReplaceAll("\U{00A3}a", "\U{00A3}", "lh") == "lha";
    RestoreKeeps("lha");
    ReplaceAllAbsent("lha", "\U{00A3}", "lh", '\U{00A3}');
    assert Upper("lha") == "LHA";
  }

  lemma SolBrilhaW2WordFinishAll(ts: seq<string>)
    requires ts == ["bri", "\U{00A3}a"]
    ensures FinishAll(ts) == ["BRI", "LHA"]
  {
    var fs := ["BRI", "LHA"];
    forall i | 0 <= i < |ts| ensures Finish(ts[i]) == fs[i] {
      if i == 0 {
        RestoreKeeps(ts[0]);
        assert Upper("bri") == "BRI";
      } else {
        SolBrilhaW2WordFinish1(ts[1]);
      }
    }
    FinishAllOf(ts, fs);
  }

  lemma SolBrilhaW2Word(w: string)
    requires w == "BRILHA"
    ensures Syllabify(w) == ["BRI", "LHA"]
  {
    SolBrilhaW2WordLower(w);
    SolBrilhaW2WordHide(Lower(w));
    MarkClustersKeeps(HideDigraphs(Lower(w)));
    SolBrilhaW2WordSplit(Prepare(w));
    SolBrilhaW2WordParts(SplitOn(Prepare(w), '-'));
    SolBrilhaW2WordFinishAll(PartsTokens(SplitOn(Prepare(w), '-')));
  }

  lemma SolBrilhaW2Attach(syl: seq<string>, p: string)
    requires syl == ["BRI", "LHA"] && p == "."
    ensures Attach(syl, p) == ["BRI", "LHA."]
  {
    assert syl[..1] == ["BRI"];
    assert syl[1] + p == "LHA.";
  }

  lemma SolBrilhaW2Tokens(w: string)
    requires w == "BRILHA."
    ensures WordTokens(w) == ["BRI", "LHA."]
  {
    SolBrilhaW2Punct(w);
    SolBrilhaW2Word(PunctSplit(w).0);
    SolBrilhaW2Attach(Syllabify(PunctSplit(w).0), PunctSplit(w).1);
  }

  lemma SolBrilhaGroups(ws: seq<string>)
    requires ws == ["O", "SOL", "BRILHA."]
    ensures WordGroups(ws) == [["O"], ["SOL"], ["BRI", "LHA."]]
  {
    var gs := [["O"], ["SOL"], ["BRI", "LHA."]];
    forall i | 0 <= i < |ws| ensures WordTokens(ws[i]) == gs[i] {
      if i == 0 {
        SolBrilhaW0Tokens(ws[0]);
      } else if i == 1 {
        SolBrilhaW1Tokens(ws[1]);
      } else {
        SolBrilhaW2Tokens(ws[2]);
      }
    }
    WordGroupsOf(ws, gs);
  }

  lemma SolBrilhaInterleave(g: seq<seq<string>>)
    requires g == [["O"], ["SOL"], ["BRI", "LHA."]]
    ensures Interleave(g) == ["O", " ", "SOL", " ", "BRI", "LHA."]
  {
    assert Interleave(g[2..]) == ["BRI", "LHA."];
    assert Interleave(g[1..]) == ["SOL", " ", "BRI", "LHA."];
    assert Interleave(g[0..]) == ["O", " ", "SOL", " ", "BRI", "LHA."];
    assert g[0..] == g;
  }

  lemma SolBrilha(s: string)
    requires s == "O SOL BRILHA."
    ensures SplitSentence(s) == ["O", " ", "SOL", " ", "BRI", "LHA."]
  {
    SolBrilhaTrim(s);
    SolBrilhaWords0(Trim(s));
    SolBrilhaGroups(Words(s));
    SolBrilhaInterleave(WordGroups(Words(s)));
  }

  lemma DashTrim(s: string)
    requires s == "- A"
    ensures Trim(s) == "- A"
  {
    assert !IsSpace(s[0]) && !IsSpace(s[|s| - 1]);
  }

  lemma DashWords0(w: string)
    requires w == "- A"
    ensures SplitWs(w) == ["-", "A"]
  {
    assert SpaceIndex(w, 1) == 1;
    assert SpaceIndex(w, 0) == 1;
    assert SpaceRunEnd(w, 2) == 2;
    assert SpaceRunEnd(w, 1) == 2;
    assert w[..1] == "-";
    DashWords1(w[2..]);
  }

  lemma DashWords1(w: string)
    requires w == "A"
    ensures SplitWs(w) == ["A"]
  {
    assert SpaceIndex(w, 1) == 1;
    assert SpaceIndex(w, 0) == 1;
  }

  lemma DashW0Punct(w: string)
    requires w == "-"
    ensures PunctSplit(w) == ("-", "")
  {
    assert w[0] == '-';
    assert forall k :: 0 <= k < |w| ==> !IsLineTerminator(w[k]);
    assert w[..1] == "-";
    assert PunctRunStart(w[..1]) == 1;
  }

  lemma DashW0WordLower(w: string)
    requires w == "-"
    ensures Lower(w) == "-"
  {

  }

  lemma DashW0WordSplit(w: string)
    requires w == "-"
    ensures SplitOn(w, '-') == ["", ""]
  {
    assert IndexFrom(w, '-', 0) == 0;
    assert w[..0] == "";
    DashW0WordSplit1(w[1..]);
  }

  lemma DashW0WordSplit1(w: string)
    requires w == ""
    ensures SplitOn(w, '-') == [""]
  {
    assert IndexFrom(w, '-', 0) == 0;
  }

  lemma DashW0WordPart0(s: string)
    requires s == ""
    ensures PartTokens(s) == []
  {
    assert ScanFrom(s, 0) == [];
    assert GlobalMatch(s) == None;
  }

  lemma DashW0WordPart1(s: string)
    requires s == ""
    ensures PartTokens(s) == []
  {
    assert ScanFrom(s, 0) == [];
    assert GlobalMatch(s) == None;
  }

  lemma DashW0WordParts(p: seq<string>)
    requires p == ["", ""]
    ensures PartsTokens(p) == []
  {
    PartsTokensTwo(p);
    DashW0WordPart0(p[0]);
    DashW0WordPart1(p[1]);
  }

  lemma DashW0WordFinishAll(ts: seq<string>)
    requires ts == []
    ensures FinishAll(ts) == []
  {

  }

  lemma DashW0Word(w: string)
    requires w == "-"
    ensures Syllabify(w) == []
  {
    DashW0WordLower(w);
    HideDigraphsKeeps(Lower(w));
    MarkClustersKeeps(HideDigraphs(Lower(w)));
    DashW0WordSplit(Prepare(w));
    DashW0WordParts(SplitOn(Prepare(w), '-'));
    DashW0WordFinishAll(PartsTokens(SplitOn(Prepare(w), '-')));
  }

  lemma DashW0Attach(syl: seq<string>, p: string)
    requires syl == [] && p == ""
    ensures Attach(syl, p) == []
  {

  }

  lemma DashW0Tokens(w: string)
    requires w == "-"
    ensures WordTokens(w) == []
  {
    DashW0Punct(w);
    DashW0Word(PunctSplit(w).0);
    DashW0Attach(Syllabify(PunctSplit(w).0), PunctSplit(w).1);
  }

  lemma DashW1Punct(w: string)
    requires w == "A"
    ensures PunctSplit(w) == ("A", "")
  {
    assert w[0] == 'A';
    assert forall k :: 0 <= k < |w| ==> !IsLineTerminator(w[k]);
    assert w[..1] == "A";
    assert PunctRunStart(w[..1]) == 1;
  }

  lemma DashW1WordLower(w: string)
    requires w == "A"
    ensures Lower(w) == "a"
  {

  }

  lemma DashW1WordSplit(w: string)
    requires w == "a"
    ensures SplitOn(w, '-') == ["a"]
  {
    assert IndexFrom(w, '-', 0) == 1;
  }

  lemma DashW1WordPart0At0(s: string)
    requires s == "a"
    ensures MatchAt(s, 0) == Some(1)
  {
    assert s[0] == 'a';
    assert OnsetEnd(s, 0) == 0;
    assert VowelEnd(s, 1) == 1;
    assert VowelEnd(s, 0) == 1;
    assert CodaEnd(s, 1) == 1;
  }

  lemma DashW1WordPart0(s: string)
    requires s == "a"
    ensures PartTokens(s) == ["a"]
  {
    DashW1WordPart0At0(s);
    assert s[0..1] == "a";
    assert ScanFrom(s, 1) == [];
    assert ScanFrom(s, 0) == ["a"];
    assert GlobalMatch(s) == Some(["a"]);
  }

  lemma DashW1WordParts(p: seq<string>)
    requires p == ["a"]
    ensures PartsTokens(p) == ["a"]
  {
    PartsTokensOne(p);
    DashW1WordPart0(p[0]);
  }

  lemma DashW1WordFinishAll(ts: seq<string>)
    requires ts == ["a"]
    ensures FinishAll(ts) == ["A"]
  {
    var fs := ["A"];
    forall i | 0 <= i < |ts| ensures Finish(ts[i]) == fs[i] {
      RestoreKeeps(ts[0]);
      assert Upper("a") == "A";
    }
    FinishAllOf(ts, fs);
  }

  lemma DashW1Word(w: string)
    requires w == "A"
    ensures Syllabify(w) == ["A"]
  {
    DashW1WordLower(w);
    HideDigraphsKeeps(Lower(w));
    MarkClustersKeeps(HideDigraphs(Lower(w)));
    DashW1WordSplit(Prepare(w));
    DashW1WordParts(SplitOn(Prepare(w), '-'));
    DashW1WordFinishAll(PartsTokens(SplitOn(Prepare(w), '-')));
  }

  lemma DashW1Attach(syl: seq<string>, p: string)
    requires syl == ["A"] && p == ""
    ensures Attach(syl, p) == ["A"]
  {

  }

  lemma DashW1Tokens(w: string)
    requires w == "A"
    ensures WordTokens(w) == ["A"]
  {
    DashW1Punct(w);
    DashW1Word(PunctSplit(w).0);
    DashW1Attach(Syllabify(PunctSplit(w).0), PunctSplit(w).1);
  }

  lemma DashGroups(ws: seq<string>)
    requires ws == ["-", "A"]
    ensures WordGroups(ws) == [[], ["A"]]
  {
    var gs := [[], ["A"]];
    forall i | 0 <= i < |ws| ensures WordTokens(ws[i]) == gs[i] {
      if i == 0 {
        DashW0Tokens(ws[0]);
      } else {
        DashW1Tokens(ws[1]);
      }
    }
    WordGroupsOf(ws, gs);
  }

  lemma DashInterleave(g: seq<seq<string>>)
    requires g == [[], ["A"]]
    ensures Interleave(g) == [" ", "A"]
  {
    assert Interleave(g[1..]) == ["A"];
    assert Interleave(g[0..]) == [" ", "A"];
    assert g[0..] == g;
  }

  lemma Dash(s: string)
    requires s == "- A"
    ensures SplitSentence(s) == [" ", "A"]
  {
    DashTrim(s);
    DashWords0(Trim(s));
    DashGroups(Words(s));
    DashInterleave(WordGroups(Words(s)));
  }

  lemma CasaExample()
    ensures Syllabify("CASA") == ["CA", "SA"]
  {
    Casa("CASA");
  }

  // "AGU": the placeholder for `gu` ends the word with no vowel after it,
  // so no match covers it and the `u` is lost.

  lemma AguHide(w: string)
    requires w == "agu"
    ensures HideDigraphs(w) == "a\U{00B5}"
  {
    ReplaceAllAbsent(w, "lh", "\U{00A3}", 'h');
    ReplaceAllAbsent(w, "nh", "\U{00A2}", 'h');
    ReplaceAllAbsent(w, "ch", "\U{00A7}", 'h');
    ReplaceAllAbsent(w, "qu", "\U{00AC}", 'q');
    assert ReplaceAll(w, "gu", "\U{00B5}") == "a\U{00B5}";
  }

  lemma AguPart0(s: string)
    requires s == "a\U{00B5}"
    ensures PartTokens(s) == ["a"]
  {
    assert OnsetEnd(s, 0) == 0;
    assert VowelEnd(s, 1) == 1;
    assert VowelEnd(s, 0) == 1;
    assert MatchAt(s, 0) == Some(1);
    assert OnsetEnd(s, 1) == 1;
    assert MatchAt(s, 1) == None;
    assert ScanFrom(s, 1) == [];
    assert s[0..1] == "a";
    assert ScanFrom(s, 0) == ["a"];
    assert GlobalMatch(s) == Some(["a"]);
  }

  lemma AguSplit(w: string)
    requires w == "a\U{00B5}"
    ensures SplitOn(w, '-') == ["a\U{00B5}"]
  {
    assert IndexFrom(w, '-', 0) == 2;
  }

  lemma AguParts(p: seq<string>)
    requires p == ["a\U{00B5}"]
    ensures PartsTokens(p) == ["a"]
  {
    PartsTokensOne(p);
    AguPart0(p[0]);
  }

  lemma AguFinishAll(ts: seq<string>)
    requires ts == ["a"]
    ensures FinishAll(ts) == ["A"]
  {
    RestoreKeeps(ts[0]);
    assert Upper("a") == "A";
    FinishAllOf(ts, ["A"]);
  }

  lemma Agu(w: string)
    requires w == "AGU"
    ensures Syllabify(w) == ["A"]
  {
    assert Lower(w) == "agu";
    AguHide(Lower(w));
    MarkClustersKeeps(HideDigraphs(Lower(w)));
    AguSplit(Prepare(w));
    AguParts(SplitOn(Prepare(w), '-'));
    AguFinishAll(PartsTokens(SplitOn(Prepare(w), '-')));
  }

  /** A trailing digraph placeholder is dropped: "AGU" keeps only its "A". */
  lemma AguExample()
    ensures Syllabify("AGU") == ["A"]
  {
    Agu("AGU");
  }

  lemma RobotExample()
    ensures Syllabify("ROBOT") == ["RO", "BO"]
  {
    Robot("ROBOT");
  }

  lemma CarroExample()
    ensures Syllabify("CARRO") == ["CAR", "RO"]
  {
    Carro("CARRO");
  }

  lemma SolBrilhaExample()
    ensures SplitSentence("O SOL BRILHA.") == ["O", " ", "SOL", " ", "BRI", "LHA."]
  {
    SolBrilha("O SOL BRILHA.");
  }

  lemma DashExample()
    ensures SplitSentence("- A") == [" ", "A"]
  {
    Dash("- A");
  }
}
