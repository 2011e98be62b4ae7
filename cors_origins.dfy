/**
 * The allowed CORS origins of the API: the comma-separated setting is split
 * at every comma, each piece is stripped of surrounding whitespace, and
 * pieces left empty are dropped.
 */
module CorsOrigins {

  import Text
  import Lists

  /** The six development origins of the default setting. */
  const DefaultList: seq<string> := [
    "http://localhost:3000", "http://localhost:3001", "http://127.0.0.1:3000",
    "http://127.0.0.1:3001", "http://localhost:5173", "http://127.0.0.1:5173"
  ]

  /** The default of the `CORS_ORIGINS` setting: those origins, each but the last followed by a comma. */
  const DefaultSetting: string :=
    DefaultList[0] + "," + DefaultList[1] + "," + DefaultList[2] + ","
    + DefaultList[3] + "," + DefaultList[4] + "," + DefaultList[5]

  /** A string with no whitespace at either end. */
  predicate Stripped(s: string) {
    s == [] || (!Text.IsPySpace(s[0]) && !Text.IsPySpace(s[|s| - 1]))
  }

  /**
   * The list comprehension over the pieces: each piece stripped, the blank
   * ones dropped, the order kept.
   */
  function Kept(pieces: seq<string>): (r: seq<string>)
    ensures |r| <= |pieces|
    decreases |pieces|
  {
    if pieces == [] then []
    else
      var s := Text.PyStrip(pieces[0]);
      (if s != [] then [s] else []) + Kept(pieces[1..])
  }

  /**
   * `cors_origins`: the stripped, non-blank pieces of the setting between
   * commas, in order.
   */
  function Origins(setting: string): (r: seq<string>)
    ensures forall i :: 0 <= i < |r| ==> r[i] != [] && Stripped(r[i]) && ',' !in r[i]
  {
    var pieces := Text.Split(setting, ',');
    var r := Kept(pieces);
    KeptSound(pieces);
    forall i | 0 <= i < |r| ensures r[i] != [] && Stripped(r[i]) && ',' !in r[i] {
      assert r[i] in r;
      var j :| 0 <= j < |pieces| && r[i] == Text.PyStrip(pieces[j]);
      StripKeepsOut(pieces[j], ',');
    }
    r
  }

  lemma KeptCons(h: string, rest: seq<string>)
    ensures Kept([h] + rest) == (if Text.PyStrip(h) != [] then [Text.PyStrip(h)] else []) + Kept(rest)
  {
    assert ([h] + rest)[1..] == rest;
  }

  /** Every piece that is not blank once stripped is kept, stripped. */
  lemma {:induction false} KeptComplete(pieces: seq<string>)
    ensures forall j :: 0 <= j < |pieces| && Text.PyStrip(pieces[j]) != [] ==> Text.PyStrip(pieces[j]) in Kept(pieces)
    decreases |pieces|
  {
    if pieces != [] {
      KeptComplete(pieces[1..]);
      forall j | 1 <= j < |pieces| ensures pieces[j] == pieces[1..][j - 1] {
      }
    }
  }

  /** Every kept origin is non-empty and the stripped form of some piece. */
  lemma {:induction false} KeptSound(pieces: seq<string>)
    ensures forall x :: x in Kept(pieces) ==> x != [] && exists j :: 0 <= j < |pieces| && x == Text.PyStrip(pieces[j])
    decreases |pieces|
  {
    if pieces != [] {
      KeptSound(pieces[1..]);
      forall x | x in Kept(pieces) ensures x != [] && exists j :: 0 <= j < |pieces| && x == Text.PyStrip(pieces[j]) {
        if x !in Kept(pieces[1..]) {
          assert x == Text.PyStrip(pieces[0]);
        } else {
          var j :| 0 <= j < |pieces[1..]| && x == Text.PyStrip(pieces[1..][j]);
          assert pieces[1..][j] == pieces[j + 1];
        }
      }
    }
  }

  function NonBlank(s: string): bool {
    s != []
  }

  /**
   * The comprehension read as two list passes: strip every piece, then keep
   * the non-empty results in their order.
   */
  lemma {:induction false} KeptIsStripThenFilter(pieces: seq<string>)
    ensures Kept(pieces) == Lists.Filter(Lists.Map(pieces, Text.PyStrip), NonBlank)
    decreases |pieces|
  {
    if pieces != [] {
      var h := Text.PyStrip(pieces[0]);
      var rest := Lists.Map(pieces[1..], Text.PyStrip);
      KeptIsStripThenFilter(pieces[1..]);
      Lists.MapHead(pieces, Text.PyStrip);
      Lists.FilterCons(h, rest, NonBlank);
    }
  }

  /** Stripping adds no character. */
  lemma StripKeepsOut(s: string, c: char)
    requires c !in s
    ensures c !in Text.PyStrip(s)
  {
    var t := Text.TrimStart(s, Text.IsPySpace);
    assert forall i :: 0 <= i < |t| ==> t[i] == s[|s| - |t| + i];
  }

  /** Pieces already stripped and non-empty come back unchanged. */
  lemma {:induction false} KeptAll(pieces: seq<string>)
    requires forall i :: 0 <= i < |pieces| ==> pieces[i] != [] && Stripped(pieces[i])
    ensures Kept(pieces) == pieces
    decreases |pieces|
  {
    if pieces != [] {
      StrippedFixed(pieces[0]);
      KeptAll(pieces[1..]);
    }
  }

  /** A list of clean origins written with commas is read back as that list. */
  lemma OriginsOfJoin(origins: seq<string>)
    requires |origins| >= 1
    requires forall i :: 0 <= i < |origins| ==> origins[i] != [] && Stripped(origins[i]) && ',' !in origins[i]
    ensures Origins(Text.Join(origins, ',')) == origins
  {
    Text.SplitJoin(origins, ',');
    KeptAll(origins);
  }

  /** Two commas around a space split into three pieces. */
  lemma SplitAroundBlank(a: string, b: string)
    requires ',' !in a && ',' !in b
    ensures Text.Split(a + [','] + " " + [','] + b, ',') == [a, " ", b]
  {
    var mid := " " + [','] + b;
    assert a + [','] + " " + [','] + b == a + [','] + mid;
    Text.SplitCons(a, ',', mid);
    Text.SplitCons(" ", ',', b);
  }

  /** A blank piece between two commas gives no origin. */
  lemma BlankPieceDropped(a: string, b: string)
    requires a != [] && Stripped(a) && ',' !in a
    requires b != [] && Stripped(b) && ',' !in b
    ensures Origins(a + [','] + " " + [','] + b) == [a, b]
  {
    SplitAroundBlank(a, b);
    StrippedFixed(a);
    StrippedFixed(b);
    BlankStrips();
    KeptCons(b, []);
    KeptCons(" ", [b]);
    KeptCons(a, [" ", b]);
  }

  /** Stripping a string with no whitespace at its ends changes nothing. */
  lemma StrippedFixed(s: string)
    requires Stripped(s)
    ensures Text.PyStrip(s) == s
  {
    Text.TrimOfTrimmed(s, Text.IsPySpace);
  }

  lemma BlankStrips()
    ensures Text.PyStrip(" ") == ""
  {
    assert Text.IsPySpace(' ');
    assert " "[1..] == "";
    assert Text.TrimStart(" ", Text.IsPySpace) == "";
  }

  /** An empty setting allows no origin. */
  lemma EmptySetting()
    ensures Origins("") == []
  {
    assert Text.Split("", ',') == [""];
    StrippedFixed("");
    KeptCons("", []);
  }

  /** An origin without a comma and with no space at either end. */
  lemma CleanOrigin(o: string)
    requires |o| > 0 && o[0] == 'h' && '0' <= o[|o| - 1] <= '9'
    requires forall i :: 0 <= i < |o| ==> o[i] != ','
    ensures o != [] && Stripped(o) && ',' !in o
  {
  }

  /** Six pieces joined with a separator. */
  lemma JoinSix(p: seq<string>, sep: char)
    requires |p| == 6
    ensures Text.Join(p, sep) == p[0] + [sep] + p[1] + [sep] + p[2] + [sep] + p[3] + [sep] + p[4] + [sep] + p[5]
  {
    var t5 := [p[5]];
    var t4 := [p[4]] + t5;
    var t3 := [p[3]] + t4;
    var t2 := [p[2]] + t3;
    var t1 := [p[1]] + t2;
    Text.JoinCons(p[4], t5, sep);
    Text.JoinCons(p[3], t4, sep);
    Text.JoinCons(p[2], t3, sep);
    Text.JoinCons(p[1], t2, sep);
    Text.JoinCons(p[0], t1, sep);
    assert p == [p[0]] + t1;
  }

  /** The default setting yields exactly the six development origins. */
  lemma DefaultOrigins()
    ensures Origins(DefaultSetting) == DefaultList
  {
    var l := DefaultList;
    CleanOrigin(l[0]);
    CleanOrigin(l[1]);
    CleanOrigin(l[2]);
    CleanOrigin(l[3]);
    CleanOrigin(l[4]);
    CleanOrigin(l[5]);
    JoinSix(l, ',');
    OriginsOfJoin(l);
  }
}
