/** Normalising the paths of a compile database: lexically, without looking at the file system. */
module PathNames {
  import opened Common

  predicate StartsWith(path: string, front: string) {
    front <= path
  }

  /** A one-byte character and a colon, or a UNC path with either slash. */
  predicate IsWindows(path: string) {
    (|path| > 1 && path[0] < '\U{80}' && path[1] == ':') || StartsWith(path, "\\\\") || StartsWith(path, "//")
  }

  predicate IsAbsolute(path: string) {
    StartsWith(path, "/") || IsWindows(path)
  }

  function Slashed(path: string): (s: string)
    ensures |s| == |path| && forall i :: 0 <= i < |path| ==> s[i] == if path[i] == '\\' then '/' else path[i]
  {
    seq(|path|, i requires 0 <= i < |path| => if path[i] == '\\' then '/' else path[i])
  }

  /** The text in which components are found. */
  function Canonical(path: string): string {
    if IsWindows(path) then Slashed(path) else path
  }

  /** A Windows path starts with an ASCII character and a colon, or with two slashes of one kind; there, and only there,
      a backslash is read as a slash. */
  lemma {:induction false} WindowsPathsAre(path: string)
    ensures IsWindows(path) <==>
              || (exists drive: char, rest :: drive as int < 128 && path == [drive, ':'] + rest)
              || (exists mark, rest :: mark in {'/', '\\'} && path == [mark, mark] + rest)
    ensures |Canonical(path)| == |path|
    ensures forall i :: 0 <= i < |path| ==> Canonical(path)[i] == if IsWindows(path) && path[i] == '\\' then '/' else path[i]
  {
    if |path| > 1 {
      assert path == [path[0], path[1]] + path[2..];
      assert "\\\\" == ['\\', '\\'] && "//" == ['/', '/'];
    }
    if IsWindows(path) && path[1] != ':' {
      assert path[0] == path[1] && path[0] in {'/', '\\'};
    }
  }

  /** The pieces between slashes; there is always one. */
  function Split(path: string): (pieces: seq<string>)
    ensures pieces != []
  {
    if path == [] then [""]
    else
      var rest := Split(path[1..]);
      if path[0] == '/' then [""] + rest else [[path[0]] + rest[0]] + rest[1..]
  }

  function Join(parts: seq<string>): string {
    if parts == [] then "" else if |parts| == 1 then parts[0] else parts[0] + ['/'] + Join(parts[1..])
  }

  /** One piece: nothing and `.` are skipped, `..` undoes the last name, or stays when there is none to undo. */
  function Taken(parts: seq<string>, piece: string, rooted: bool): seq<string> {
    if piece == "" || piece == "." then parts
    else if piece == ".." then
      if parts != [] && parts[|parts| - 1] != ".." then parts[..|parts| - 1]
      else if rooted then parts
      else parts + [piece]
    else parts + [piece]
  }

  function Reduced(pieces: seq<string>, rooted: bool): seq<string> {
    if pieces == [] then [] else Taken(Reduced(pieces[..|pieces| - 1], rooted), pieces[|pieces| - 1], rooted)
  }

  function Lead(value: string): string {
    if StartsWith(value, "//") then "//" else if StartsWith(value, "/") then "/" else ""
  }

  function Normalized(path: string): string {
    var value := Canonical(path);
    Lead(value) + Join(Reduced(Split(value), IsAbsolute(value)))
  }

  method Normalize(path: string) returns (result: string)
    ensures result == Normalized(path)
  {
    var value := Canonical(path);
    var pieces := Split(value);
    var rooted := IsAbsolute(value);
    var parts: seq<string> := [];
    for i := 0 to |pieces|
      invariant parts == Reduced(pieces[..i], rooted)
    {
      assert pieces[..i + 1][..i] == pieces[..i];
      var piece := pieces[i];
      if piece == "" || piece == "." { continue; }
      if piece == ".." {
        if parts != [] && parts[|parts| - 1] != ".." {
          parts := parts[..|parts| - 1];
        } else if !rooted {
          parts := parts + [piece];
        }
      } else {
        parts := parts + [piece];
      }
    }
    assert pieces[..|pieces|] == pieces;
    result := Lead(value) + Join(parts);
  }

  // ---- Meaning: walking a tree without links ----

  /** Where one step leads from a directory, given as the names from the root down. */
  function Stepped(dir: seq<string>, piece: string): seq<string> {
    if piece == "" || piece == "." then dir
    else if piece == ".." then if dir == [] then [] else dir[..|dir| - 1]
    else dir + [piece]
  }

  function Walked(dir: seq<string>, pieces: seq<string>): seq<string> {
    if pieces == [] then dir else Stepped(Walked(dir, pieces[..|pieces| - 1]), pieces[|pieces| - 1])
  }

  /** No empty or dot names; parent steps only in front, and none at a root. */
  ghost predicate IsNormal(parts: seq<string>, rooted: bool) {
    && (forall i :: 0 <= i < |parts| ==> parts[i] != "" && parts[i] != "." && '/' !in parts[i])
    && (rooted ==> ".." !in parts)
    && (forall i, j :: 0 <= i < j < |parts| && parts[j] == ".." ==> parts[i] == "..")
  }

  lemma {:induction false} PiecesHaveNoSlash(path: string)
    ensures forall i :: 0 <= i < |Split(path)| ==> '/' !in Split(path)[i]
  {
    if path != [] {
      PiecesHaveNoSlash(path[1..]);
    }
  }

  lemma {:induction false} ReducedIsNormal(pieces: seq<string>, rooted: bool)
    requires forall i :: 0 <= i < |pieces| ==> '/' !in pieces[i]
    ensures IsNormal(Reduced(pieces, rooted), rooted)
  {
    if pieces != [] {
      ReducedIsNormal(pieces[..|pieces| - 1], rooted);
      TakenIsNormal(Reduced(pieces[..|pieces| - 1], rooted), pieces[|pieces| - 1], rooted);
    }
  }

  lemma {:induction false} TakenIsNormal(parts: seq<string>, piece: string, rooted: bool)
    requires IsNormal(parts, rooted) && '/' !in piece
    ensures IsNormal(Taken(parts, piece, rooted), rooted)
  {
    if piece == ".." && parts != [] && parts[|parts| - 1] == ".." {
      assert parts[|parts| - 1] in parts;
    }
    if piece != "" && piece != "." && piece != ".." {
      assert forall p :: p in parts + [piece] ==> p in parts || p == piece;
    }
  }

  lemma {:induction false} WalkedLast(dir: seq<string>, parts: seq<string>, piece: string)
    ensures Walked(dir, parts + [piece]) == Stepped(Walked(dir, parts), piece)
  {
    assert (parts + [piece])[..|parts|] == parts;
  }

  lemma {:induction false} LastIn(parts: seq<string>)
    ensures parts != [] ==> parts[|parts| - 1] in parts
  {}

  lemma {:induction false} TakenWalks(dir: seq<string>, parts: seq<string>, piece: string, rooted: bool)
    requires IsNormal(parts, rooted) && (rooted ==> dir == [])
    ensures Walked(dir, Taken(parts, piece, rooted)) == Stepped(Walked(dir, parts), piece)
  {
    if piece == ".." {
      if parts != [] && parts[|parts| - 1] != ".." {
        var front, last := parts[..|parts| - 1], parts[|parts| - 1];
        assert parts == front + [last];
        WalkedLast(dir, front, last);
        assert last != "" && last != ".";
      } else {
        LastIn(parts);
        if !rooted { WalkedLast(dir, parts, piece); }
      }
    } else if piece != "" && piece != "." {
      WalkedLast(dir, parts, piece);
    }
  }

  /** From every directory, the reduced pieces lead where the pieces lead; a rooted path starts at the root. */
  lemma {:induction false} ReducedWalks(dir: seq<string>, pieces: seq<string>, rooted: bool)
    requires (forall i :: 0 <= i < |pieces| ==> '/' !in pieces[i]) && (rooted ==> dir == [])
    ensures Walked(dir, Reduced(pieces, rooted)) == Walked(dir, pieces)
  {
    if pieces != [] {
      var n := |pieces| - 1;
      ReducedWalks(dir, pieces[..n], rooted);
      ReducedIsNormal(pieces[..n], rooted);
      TakenWalks(dir, Reduced(pieces[..n], rooted), pieces[n], rooted);
      hide Taken, Stepped, IsNormal;
    }
  }

  // ---- Splitting what was joined ----

  lemma {:induction false} SplitPart(part: string, rest: string)
    requires '/' !in part
    ensures Split(part) == [part] && Split(part + ['/'] + rest) == [part] + Split(rest)
  {
    var path := part + ['/'] + rest;
    if part == [] {
      assert path[1..] == rest;
    } else {
      assert path[1..] == part[1..] + ['/'] + rest;
      SplitPart(part[1..], rest);
      assert [part[0]] + part[1..] == part;
    }
  }

  lemma {:induction false} SplitJoin(parts: seq<string>)
    requires forall i :: 0 <= i < |parts| ==> '/' !in parts[i]
    ensures Split(Join(parts)) == if parts == [] then [""] else parts
  {
    if parts != [] {
      SplitPart(parts[0], Join(parts[1..]));
      if |parts| == 1 {
        assert parts == [parts[0]];
      } else {
        SplitJoin(parts[1..]);
        assert parts == [parts[0]] + parts[1..];
      }
    }
  }

  lemma {:induction false} SplitLead(lead: string, rest: string)
    requires lead == "" || lead == "/" || lead == "//"
    ensures Split(lead + rest) == (if lead == "" then [] else if lead == "/" then [""] else ["", ""]) + Split(rest)
  {
    if lead == "" {
      assert lead + rest == rest;
    } else if lead == "/" {
      assert (lead + rest)[1..] == rest;
    } else {
      assert (lead + rest)[1..] == ['/'] + rest && (['/'] + rest)[1..] == rest;
    }
  }

  lemma {:induction false} SkipsEmpty(rooted: bool)
    ensures forall parts: seq<string> :: Taken(parts, "", rooted) == parts
  {}

  lemma {:induction false} ReducedSkips(blank: seq<string>, pieces: seq<string>, rooted: bool)
    requires forall i :: 0 <= i < |blank| ==> blank[i] == ""
    ensures Reduced(blank + pieces, rooted) == Reduced(pieces, rooted)
    decreases |blank| + |pieces|
  {
    hide Taken;
    assert forall parts: seq<string> :: Taken(parts, "", rooted) == parts by { SkipsEmpty(rooted); }
    if pieces != [] {
      assert (blank + pieces)[..|blank + pieces| - 1] == blank + pieces[..|pieces| - 1];
      ReducedSkips(blank, pieces[..|pieces| - 1], rooted);
    } else if blank != [] {
      assert blank + pieces == blank;
      ReducedSkips(blank[..|blank| - 1], [], rooted);
      assert blank[..|blank| - 1] + [] == blank[..|blank| - 1];
    }
  }

  /** Normal parts stay as they are. */
  lemma {:induction false} NormalStays(parts: seq<string>, rooted: bool)
    requires IsNormal(parts, rooted)
    ensures Reduced(parts, rooted) == parts
  {
    if parts != [] {
      var n := |parts| - 1;
      LastOfNormal(parts, rooted);
      hide IsNormal;
      NormalStays(parts[..n], rooted);
      assert parts[..n] + [parts[n]] == parts;
    }
  }

  lemma {:induction false} LastOfNormal(parts: seq<string>, rooted: bool)
    requires IsNormal(parts, rooted) && parts != []
    ensures var front, last := parts[..|parts| - 1], parts[|parts| - 1];
            && IsNormal(front, rooted) && last != "" && last != "."
            && (last == ".." ==> !rooted && (front == [] || front[|front| - 1] == ".."))
  {
    LastIn(parts);
  }

  // ---- Main results ----

  /** The parts of a path, and what its normal form splits into. */
  function Parts(path: string): seq<string> {
    var value := Canonical(path);
    Reduced(Split(value), IsAbsolute(value))
  }

  lemma {:induction false} PartsAreNormal(path: string)
    ensures IsNormal(Parts(path), IsAbsolute(Canonical(path)))
    ensures forall i :: 0 <= i < |Parts(path)| ==> '/' !in Parts(path)[i]
  {
    PiecesHaveNoSlash(Canonical(path));
    ReducedIsNormal(Split(Canonical(path)), IsAbsolute(Canonical(path)));
  }

  lemma {:induction false} LeadAndJoin(lead: string, parts: seq<string>) returns (blank: seq<string>)
    requires lead == "" || lead == "/" || lead == "//"
    requires forall i :: 0 <= i < |parts| ==> '/' !in parts[i]
    ensures forall i :: 0 <= i < |blank| ==> blank[i] == ""
    ensures Split(lead + Join(parts)) == blank + parts
  {
    hide Split, Join;
    SplitJoin(parts);
    SplitLead(lead, Join(parts));
    blank := if lead == "" then [] else if lead == "/" then [""] else ["", ""];
    if parts == [] {
      blank := blank + [""];
      assert blank + parts == blank;
    }
  }

  lemma {:induction false} NormalizedSplits(path: string) returns (blank: seq<string>)
    ensures forall i :: 0 <= i < |blank| ==> blank[i] == ""
    ensures Split(Normalized(path)) == blank + Parts(path)
  {
    var lead := Lead(Canonical(path));
    PartsAreNormal(path);
    hide Split, Join, Reduced, IsNormal, Canonical;
    assert Normalized(path) == lead + Join(Parts(path));
    hide Normalized, Parts;
    blank := LeadAndJoin(lead, Parts(path));
  }

  /** Normalising keeps the meaning: from every directory, the normal form leads where the path led. */
  lemma {:induction false} NormalizePreservesWalk(path: string, dir: seq<string>)
    ensures var value := Canonical(path);
            var start := if IsAbsolute(value) then [] else dir;
            Walked(start, Split(Normalized(path))) == Walked(start, Split(value))
  {
    var value := Canonical(path);
    var start := if IsAbsolute(value) then [] else dir;
    PiecesHaveNoSlash(value);
    ReducedWalks(start, Split(value), IsAbsolute(value));
    var blank := NormalizedSplits(path);
    BlankWalks(start, blank, Parts(path));
    hide Split, Walked, Reduced, Normalized;
  }

  lemma {:induction false} StaysOnEmpty()
    ensures forall d: seq<string> :: Stepped(d, "") == d
  {}

  lemma {:induction false} BlankWalks(dir: seq<string>, blank: seq<string>, pieces: seq<string>)
    requires forall i :: 0 <= i < |blank| ==> blank[i] == ""
    ensures Walked(dir, blank + pieces) == Walked(dir, pieces)
    decreases |blank| + |pieces|
  {
    assert forall d: seq<string> :: Stepped(d, "") == d by { StaysOnEmpty(); }
    hide Stepped;
    if pieces != [] {
      assert (blank + pieces)[..|blank + pieces| - 1] == blank + pieces[..|pieces| - 1];
      BlankWalks(dir, blank, pieces[..|pieces| - 1]);
    } else if blank != [] {
      assert blank + pieces == blank;
      BlankWalks(dir, blank[..|blank| - 1], []);
      assert blank[..|blank| - 1] + [] == blank[..|blank| - 1];
    }
  }

  lemma {:induction false} JoinStart(parts: seq<string>)
    requires parts != []
    ensures parts[0] <= Join(parts)
    ensures Join(parts) == parts[0] || (|Join(parts)| > |parts[0]| && Join(parts)[|parts[0]|] == '/')
  {}

  /** The normal form starts like the path did. */
  lemma {:induction false} LeadKept(lead: string, parts: seq<string>, rooted: bool)
    requires (lead == "" || lead == "/" || lead == "//") && IsNormal(parts, rooted)
    ensures Lead(lead + Join(parts)) == lead
  {
    var text := Join(parts);
    if parts != [] {
      JoinStart(parts);
      assert parts[0][0] in parts[0] && text[0] == parts[0][0] != '/';
    }
    hide Join;
    assert text == "" || text[0] != '/';
    if lead == "/" && text != "" { assert (lead + text)[1] == text[0]; }
    if lead == "//" { assert (lead + text)[..2] == "//"; }
    assert lead == "" ==> lead + text == text;
  }

  lemma {:induction false} ParentStepIsRelative(parts: seq<string>)
    requires parts != [] && parts[0] == ".."
    ensures !IsAbsolute(Join(parts))
  {
    JoinStart(parts);
    var text := Join(parts);
    hide Join;
    assert text[0] == parts[0][0] == '.' && text[1] == parts[0][1] == '.';
    assert !StartsWith(text, "/") && !StartsWith(text, "//") && !StartsWith(text, "\\\\");
  }

  lemma {:induction false} ParentStepsAreInFront(parts: seq<string>)
    requires IsNormal(parts, false) && (parts == [] || parts[0] != "..")
    ensures IsNormal(parts, true)
  {
    forall j | 0 <= j < |parts| ensures parts[j] != ".." {}
  }

  /** A relative path whose normal form looks absolute has no parent steps left. */
  lemma {:induction false} NoParentStepsWhenAbsolute(parts: seq<string>)
    requires IsNormal(parts, false) && IsAbsolute(Join(parts))
    ensures IsNormal(parts, true)
  {
    hide IsAbsolute, IsNormal, Join;
    if parts == [] || parts[0] != ".." {
      ParentStepsAreInFront(parts);
    } else {
      ParentStepIsRelative(parts);
    }
  }

  lemma {:induction false} SplitChars(path: string, c: char)
    requires c !in path
    ensures forall i :: 0 <= i < |Split(path)| ==> c !in Split(path)[i]
  {
    if path != [] {
      SplitChars(path[1..], c);
    }
  }

  lemma {:induction false} ReducedChars(pieces: seq<string>, rooted: bool, c: char)
    requires forall i :: 0 <= i < |pieces| ==> c !in pieces[i]
    ensures forall i :: 0 <= i < |Reduced(pieces, rooted)| ==> c !in Reduced(pieces, rooted)[i]
  {
    if pieces != [] { ReducedChars(pieces[..|pieces| - 1], rooted, c); }
  }

  lemma {:induction false} JoinChars(parts: seq<string>, c: char)
    requires c != '/' && forall i :: 0 <= i < |parts| ==> c !in parts[i]
    ensures c !in Join(parts)
  {
    if |parts| > 1 { JoinChars(parts[1..], c); }
  }

  lemma {:induction false} NoNewBackslashes(path: string)
    requires IsWindows(path) || '\\' !in path
    ensures '\\' !in Normalized(path)
  {
    var value := Canonical(path);
    assert '\\' !in value;
    SplitChars(value, '\\');
    ReducedChars(Split(value), IsAbsolute(value), '\\');
    JoinChars(Parts(path), '\\');
    hide Split, Reduced, Join, IsWindows;
  }

  /** Normalising twice is normalising once, except where the normal form looks like a Windows path and still holds
      a backslash; so it is for every path that looks like a Windows path to begin with, or holds no backslash. */
  lemma {:induction false} NormalizeTwice(path: string)
    ensures var once := Normalized(path);
            && (Normalized(once) == once <==> !(IsWindows(once) && '\\' in once))
            && (IsWindows(path) || '\\' !in path ==> Normalized(once) == once)
  {
    var once := Normalized(path);
    if IsWindows(once) { NoNewBackslashes(once); }
    if IsWindows(path) || '\\' !in path { NoNewBackslashes(path); }
    if !(IsWindows(once) && '\\' in once) {
      assert Canonical(once) == once;
      NormalFormStays(path);
    }
    hide Normalized, IsWindows;
  }

  /** A dropped `.` can uncover a drive letter, whose backslash only the second run replaces. */
  lemma {:induction false} SecondRunChanges()
    ensures Normalized("./c:\\x") == "c:\\x" && Normalized("c:\\x") == "c:/x"
  {
    hide Normalized;
    DotAndPiece("c:\\x");
    DriveAndPiece("c:", "x");
    assert "." + ['/'] + "c:\\x" == "./c:\\x" && "c:" + ['\\'] + "x" == "c:\\x" && "c:" + ['/'] + "x" == "c:/x";
  }

  /** A path that starts with `./` and has one more piece is that piece. */
  lemma {:induction false} DotAndPiece(piece: string)
    requires '/' !in piece && piece != "" && piece != "." && piece != ".."
    ensures Normalized("." + ['/'] + piece) == piece
  {
    var path := "." + ['/'] + piece;
    assert path[0] == '.' && path[1] == '/';
    assert !IsAbsolute(path) && Canonical(path) == path && Lead(path) == "";
    SplitPart(".", piece);
    SplitPart(piece, "");
    hide IsAbsolute, Canonical, Lead, Split, Reduced;
    TwoParts(".", piece, false);
    assert Join([piece]) == piece && "" + piece == piece;
  }

  /** A drive and one more piece, joined by a backslash. */
  lemma {:induction false} DriveAndPiece(drive: string, piece: string)
    requires |drive| == 2 && drive[0] < '\U{80}' && drive[0] != '/' && drive[0] != '\\' && drive[1] == ':'
    requires '/' !in piece && '\\' !in piece && piece != "" && piece != "." && piece != ".."
    ensures Normalized(drive + ['\\'] + piece) == drive + ['/'] + piece
  {
    var path, value := drive + ['\\'] + piece, drive + ['/'] + piece;
    assert path[0] == drive[0] && path[1] == ':' && value[0] == drive[0] && value[1] == ':';
    assert Slashed(path) == value;
    assert IsWindows(path) && IsWindows(value) && Lead(value) == "";
    SplitPart(drive, piece);
    SplitPart(piece, "");
    hide IsWindows, Lead, Split, Reduced, Slashed;
    TwoParts(drive, piece, true);
    assert [drive, piece][1..] == [piece] && Join([piece]) == piece;
    assert Join([drive, piece]) == value && "" + value == value;
  }

  lemma {:induction false} TwoParts(first: string, second: string, rooted: bool)
    requires first != "" && first != ".." && second != "" && second != "." && second != ".."
    ensures Reduced([first] + [second], rooted) == if first == "." then [second] else [first, second]
  {
    assert [first, second][..1] == [first] && [first][..0] == [];
    assert Reduced([first], rooted) == Taken(Reduced([], rooted), first, rooted);
  }

  lemma {:induction false} NormalFormStays(path: string)
    requires Canonical(Normalized(path)) == Normalized(path)
    ensures Normalized(Normalized(path)) == Normalized(path)
  {
    var value, once, parts := Canonical(path), Normalized(path), Parts(path);
    var blank := NormalizedSplits(path);
    PartsAreNormal(path);
    LeadKept(Lead(value), parts, IsAbsolute(value));
    hide Split, Reduced, Join;
    if IsAbsolute(once) && !IsAbsolute(value) {
      assert Lead(value) == "" && once == "" + Join(parts) == Join(parts);
      NoParentStepsWhenAbsolute(parts);
    }
    StillNormal(parts, IsAbsolute(value), IsAbsolute(once));
    ReducedSkips(blank, parts, IsAbsolute(once));
    NormalStays(parts, IsAbsolute(once));
  }

  lemma {:induction false} StillNormal(parts: seq<string>, rooted: bool, after: bool)
    requires IsNormal(parts, rooted) && (after && !rooted ==> IsNormal(parts, true))
    ensures IsNormal(parts, after)
  {}
}
