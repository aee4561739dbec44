/**
  The Drive presence probe of client.js (`isFolderInDrive`). The output of
  `rclone lsd` is a list of lines such as
  "          -1 2019-06-01 10:00:00        -1 Folder Name"; each line is turned
  into a folder name by `l.split('-1').slice(2).join('-1').slice(1)` and the
  probe answers whether the torrent's name is among them. JavaScript's
  `split` and `join` on strings are modelled here (`FolderName`), and so is
  what that extraction gets wrong: a date such as 2019-11-05 holds "-1"
  itself. The probe is modelled with the extraction it evidently intends,
  the name column after the size, date, time and count columns
  (`ListingName`).
*/
module DriveListing {
  import opened Wrappers

  const ListingSeparator := "-1"

  /** `sep` occurs in `s` starting at index `j`. */
  predicate OccursAt(s: string, sep: string, j: nat)
  {
    j + |sep| <= |s| && s[j..j + |sep|] == sep
  }

  /** `s` contains no occurrence of `sep`. */
  ghost predicate Free(s: string, sep: string)
  {
    forall j: nat :: !OccursAt(s, sep, j)
  }

  lemma OccursShift(s: string, sep: string, j: nat)
    requires |s| > 0
    ensures OccursAt(s, sep, j + 1) <==> OccursAt(s[1..], sep, j)
  {
    if j + 1 + |sep| <= |s| {
      assert s[j + 1..j + 1 + |sep|] == s[1..][j..j + |sep|];
    }
  }

  /** The index of the first occurrence of `sep` in `s`, as `indexOf` finds it. */
  function IndexOf(s: string, sep: string): (r: Option<nat>)
    requires |sep| > 0
    ensures r.Some? ==> OccursAt(s, sep, r.value) && forall j: nat :: j < r.value ==> !OccursAt(s, sep, j)
    ensures r.None? ==> Free(s, sep)
    decreases |s|
  {
    if |s| < |sep| then None
    else if s[..|sep|] == sep then Some(0)
    else
      var rest := IndexOf(s[1..], sep);
      assert forall j: nat :: OccursAt(s, sep, j + 1) <==> OccursAt(s[1..], sep, j) by {
        forall j: nat ensures OccursAt(s, sep, j + 1) <==> OccursAt(s[1..], sep, j) {
          OccursShift(s, sep, j);
        }
      }
      assert forall j: nat :: OccursAt(s, sep, j) ==> j == 0 || OccursAt(s[1..], sep, j - 1);
      match rest
      case None => None
      case Some(i) => Some(i + 1)
  }

  /** `s.split(sep)` for a non-empty separator. */
  function Split(s: string, sep: string): (parts: seq<string>)
    requires |sep| > 0
    ensures |parts| >= 1
    decreases |s|
  {
    match IndexOf(s, sep)
    case None => [s]
    case Some(i) => [s[..i]] + Split(s[i + |sep|..], sep)
  }

  /** `parts.join(sep)`. */
  function Join(parts: seq<string>, sep: string): string
  {
    if |parts| == 0 then ""
    else if |parts| == 1 then parts[0]
    else parts[0] + sep + Join(parts[1..], sep)
  }

  /** Joining the pieces of a split gives back the original text. */
  lemma {:induction false} JoinSplit(s: string, sep: string)
    requires |sep| > 0
    ensures Join(Split(s, sep), sep) == s
    decreases |s|
  {
    match IndexOf(s, sep)
    case None =>
    case Some(i) =>
      var rest := s[i + |sep|..];
      SplitAtFirst(s, sep, i);
      JoinCons(s[..i], Split(rest, sep), sep);
      JoinSplit(rest, sep);
  }

  /** A split at the first occurrence, at `i`: the piece before it, then the
      split of what follows; and the text is those two around `sep`. */
  lemma SplitAtFirst(s: string, sep: string, i: nat)
    requires |sep| > 0 && IndexOf(s, sep) == Some(i)
    ensures Split(s, sep) == [s[..i]] + Split(s[i + |sep|..], sep)
    ensures s == s[..i] + sep + s[i + |sep|..]
  {
    assert s[i..i + |sep|] == sep;
    assert s == s[..i] + s[i..i + |sep|] + s[i + |sep|..];
  }

  lemma JoinCons(head: string, tail: seq<string>, sep: string)
    requires |tail| >= 1
    ensures Join([head] + tail, sep) == head + sep + Join(tail, sep)
  {
    assert ([head] + tail)[1..] == tail;
  }

  /** No piece of a split contains the separator. */
  lemma {:induction false} SplitPartsFree(s: string, sep: string)
    requires |sep| > 0
    ensures forall k :: 0 <= k < |Split(s, sep)| ==> Free(Split(s, sep)[k], sep)
    decreases |s|
  {
    match IndexOf(s, sep)
    case None =>
    case Some(i) =>
      var rest := s[i + |sep|..];
      SplitPartsFree(rest, sep);
      var parts := Split(s, sep);
      assert parts == [s[..i]] + Split(rest, sep);
      forall j: nat ensures !OccursAt(s[..i], sep, j) {
        if OccursAt(s[..i], sep, j) {
          assert s[..i][j..j + |sep|] == s[j..j + |sep|];
          assert OccursAt(s, sep, j);
        }
      }
  }

  /** The folder name rclone prints after the second "-1" of a listing line, without its first character. */
  function FolderName(line: string): string
  {
    var parts := Split(line, ListingSeparator);
    var tail := Join(if |parts| <= 2 then [] else parts[2..], ListingSeparator);
    if |tail| == 0 then "" else tail[1..]
  }

  /** If the text before a "-1" has no "-1" of its own, that "-1" is the first one. */
  lemma FirstSeparator(a: string, rest: string)
    requires Free(a, ListingSeparator)
    ensures IndexOf(a + ListingSeparator + rest, ListingSeparator) == Some(|a|)
  {
    var s := a + ListingSeparator + rest;
    assert s[|a|..|a| + 2] == ListingSeparator;
    assert OccursAt(s, ListingSeparator, |a|);
    forall j: nat | j < |a| ensures !OccursAt(s, ListingSeparator, j) {
      if j + 2 <= |a| {
        assert s[j..j + 2] == a[j..j + 2];
        assert !OccursAt(a, ListingSeparator, j);
      } else {
        assert s[j + 1] == '-';
      }
    }
  }

  /** Splitting "A-1REST", with no "-1" in A, gives A followed by the pieces of REST. */
  lemma SplitAfterFree(a: string, rest: string)
    requires Free(a, ListingSeparator)
    ensures Split(a + ListingSeparator + rest, ListingSeparator) == [a] + Split(rest, ListingSeparator)
  {
    var line := a + ListingSeparator + rest;
    FirstSeparator(a, rest);
    assert line[..|a|] == a;
    assert line[|a| + |ListingSeparator|..] == rest;
  }

  /** For a listing line "A-1B-1 NAME" in which A and B contain no "-1" (the
      padding and a date without "-1" in it), the folder name is NAME,
      whatever NAME itself contains. */
  lemma FolderNameOfListingLine(a: string, b: string, x: char, name: string)
    requires Free(a, ListingSeparator) && Free(b, ListingSeparator)
    ensures FolderName(a + ListingSeparator + b + ListingSeparator + [x] + name) == name
  {
    var sep := ListingSeparator;
    var r2 := [x] + name;
    var r1 := b + sep + r2;
    var line := a + sep + r1;
    assert line == a + sep + b + sep + [x] + name;
    var tail := Split(r2, sep);
    SplitAfterFree(b, r2);
    SplitAfterFree(a, r1);
    var parts := Split(line, sep);
    assert parts == [a] + ([b] + tail);
    assert |parts| > 2 && parts[2..] == tail;
    JoinSplit(r2, sep);
    assert Join(parts[2..], sep) == r2;
  }

  /** A text without a '-' contains no "-1". */
  lemma NoDashFree(s: string)
    requires '-' !in s
    ensures Free(s, ListingSeparator)
  {
    forall j: nat ensures !OccursAt(s, ListingSeparator, j) {
      if j + 2 <= |s| {
        assert s[j] in s;
        assert s[j..j + 2][0] == s[j];
      }
    }
  }

  /** Two texts without "-1" whose junction does not spell "-1" either. */
  lemma FreeConcat(x: string, y: string)
    requires Free(x, ListingSeparator) && Free(y, ListingSeparator)
    requires |x| == 0 || |y| == 0 || x[|x| - 1] != '-' || y[0] != '1'
    ensures Free(x + y, ListingSeparator)
  {
    var s := x + y;
    forall j: nat ensures !OccursAt(s, ListingSeparator, j) {
      if j + 2 <= |x| {
        assert !OccursAt(x, ListingSeparator, j);
        assert s[j..j + 2] == x[j..j + 2];
      } else if j >= |x| && j + 2 <= |s| {
        assert !OccursAt(y, ListingSeparator, j - |x|);
        assert s[j..j + 2] == y[j - |x|..j - |x| + 2];
      } else if j + 2 <= |s| {
        assert s[j..j + 2][0] == x[|x| - 1] && s[j..j + 2][1] == y[0];
      }
    }
  }

  /** As written: a date with "-1" in it (a month from October on, or a day
      from the 10th to the 19th) adds separators, so the extraction cuts the
      line inside the date and returns the rest of the line rather than the
      name after its one space. */
  lemma {:induction false} DatedLineMisread(a: string, b: string, c: string, tail: string)
    requires Free(a, ListingSeparator) && Free(b, ListingSeparator) && Free(c, ListingSeparator) && |c| > 0
    ensures FolderName(a + ListingSeparator + b + ListingSeparator + c + ListingSeparator + tail)
      == c[1..] + ListingSeparator + tail
    ensures |tail| > 0 ==> FolderName(a + ListingSeparator + b + ListingSeparator + c + ListingSeparator + tail) != tail[1..]
  {
    var sep := ListingSeparator;
    var r3 := c + sep + tail;
    SplitPastTwo(a, b, r3);
    assert a + sep + b + sep + c + sep + tail == a + sep + (b + sep + r3);
    JoinSplit(r3, sep);
    assert r3[1..] == c[1..] + sep + tail;
  }

  /** The pieces of "A-1B-1REST" past the first two, for A and B without "-1",
      are those of REST. */
  lemma SplitPastTwo(a: string, b: string, rest: string)
    requires Free(a, ListingSeparator) && Free(b, ListingSeparator)
    ensures |Split(a + ListingSeparator + (b + ListingSeparator + rest), ListingSeparator)| > 2
    ensures Split(a + ListingSeparator + (b + ListingSeparator + rest), ListingSeparator)[2..] == Split(rest, ListingSeparator)
  {
    var sep := ListingSeparator;
    SplitAfterFree(b, rest);
    SplitAfterFree(a, b + sep + rest);
    var parts := Split(a + sep + (b + sep + rest), sep);
    assert parts == [a] + ([b] + Split(rest, sep));
  }

  /** The line rclone prints for a folder dated 2019-11-05: the probe reads
      its name as "-05 10:00:00        -1 Name". */
  lemma NovemberFolderMisread()
    ensures FolderName(Spaces(10) + "-1" + " 2019" + "-1" + ("1-05 10:00:00" + Spaces(8)) + "-1" + " Name")
      == "-05 10:00:00" + Spaces(8) + "-1" + " Name"
  {
    var c := "1-05 10:00:00" + Spaces(8);
    NoDashFree(Spaces(10));
    NoDashFree(" 2019");
    DayFree();
    DatedLineMisread(Spaces(10), " 2019", c, " Name");
    assert c[1..] == "-05 10:00:00" + Spaces(8);
  }

  /** The piece of that line between the month's "-1" and the count's "-1". */
  lemma DayFree()
    ensures Free("1-05 10:00:00" + Spaces(8), ListingSeparator)
  {
    var rest := "05 10:00:00" + Spaces(8);
    NoDashFree("1");
    NoDashFree(rest);
    assert !OccursAt("-", ListingSeparator, 0);
    FreeConcat("-", rest);
    FreeConcat("1", "-" + rest);
    assert "1" + ("-" + rest) == "1-05 10:00:00" + Spaces(8);
  }

  /** `s` is made of spaces only. */
  predicate Blank(s: string)
  {
    forall i :: 0 <= i < |s| ==> s[i] == ' '
  }

  /** N spaces of padding. */
  function Spaces(n: nat): (s: string)
    ensures |s| == n && Blank(s)
  {
    seq(n, _ => ' ')
  }

  /** `s` without its leading spaces. */
  function DropSpaces(s: string): string
    decreases |s|
  {
    if |s| > 0 && s[0] == ' ' then DropSpaces(s[1..]) else s
  }

  /** `s` without its leading word (the characters up to the first space). */
  function DropWord(s: string): string
    decreases |s|
  {
    if |s| > 0 && s[0] != ' ' then DropWord(s[1..]) else s
  }

  /** `s` without a leading column: its padding, then its word. */
  function DropColumn(s: string): string
  {
    DropWord(DropSpaces(s))
  }

  /** What the probe evidently means to read: the name column of an
      `rclone lsd` line, which follows the size, the date, the time and the
      count of objects, and one space. */
  function ListingName(line: string): string
  {
    var rest := DropColumn(DropColumn(DropColumn(DropColumn(line))));
    if |rest| == 0 then "" else rest[1..]
  }

  lemma {:induction false} DropSpacesOver(sp: string, s: string)
    requires Blank(sp) && (|s| == 0 || s[0] != ' ')
    ensures DropSpaces(sp + s) == s
    decreases |sp|
  {
    if |sp| > 0 {
      assert (sp + s)[1..] == sp[1..] + s;
      DropSpacesOver(sp[1..], s);
    } else {
      assert sp + s == s;
    }
  }

  lemma {:induction false} DropWordOver(w: string, s: string)
    requires ' ' !in w && (|s| == 0 || s[0] == ' ')
    ensures DropWord(w + s) == s
    decreases |w|
  {
    if |w| > 0 {
      assert (w + s)[0] == w[0] && (w + s)[1..] == w[1..] + s;
      assert w[0] in w;
      DropWordOver(w[1..], s);
    } else {
      assert w + s == s;
    }
  }

  /** Padding, a word and then a space or the end of the line: one column. */
  lemma DropColumnOver(sp: string, w: string, s: string)
    requires Blank(sp) && |w| > 0 && ' ' !in w && (|s| == 0 || s[0] == ' ')
    ensures DropColumn(sp + w + s) == s
  {
    assert w[0] in w;
    assert sp + w + s == sp + (w + s);
    DropSpacesOver(sp, w + s);
    DropWordOver(w, s);
  }

  /** For a line of four padded columns, a space and then NAME, the name is
      NAME, whatever the columns and NAME contain. */
  lemma ListingNameOfLine(sp0: string, w1: string, sp1: string, w2: string, sp2: string, w3: string,
                          sp3: string, w4: string, name: string)
    requires Blank(sp0) && Blank(sp1) && Blank(sp2) && Blank(sp3)
    requires |sp1| > 0 && |sp2| > 0 && |sp3| > 0
    requires |w1| > 0 && |w2| > 0 && |w3| > 0 && |w4| > 0
    requires ' ' !in w1 && ' ' !in w2 && ' ' !in w3 && ' ' !in w4
    ensures ListingName(sp0 + w1 + sp1 + w2 + sp2 + w3 + sp3 + w4 + " " + name) == name
  {
    var r4 := " " + name;
    var r3 := sp3 + w4 + r4;
    var r2 := sp2 + w3 + r3;
    var r1 := sp1 + w2 + r2;
    assert sp0 + w1 + sp1 + w2 + sp2 + w3 + sp3 + w4 + " " + name == sp0 + w1 + r1;
    DropColumnOver(sp0, w1, r1);
    DropColumnOver(sp1, w2, r2);
    DropColumnOver(sp2, w3, r3);
    DropColumnOver(sp3, w4, r4);
  }

  /** The November line read by columns: its name is "Name". */
  lemma NovemberFolderListed()
    ensures ListingName(Spaces(10) + "-1" + " " + "2019-11-05" + " " + "10:00:00" + Spaces(8) + "-1" + " " + "Name") == "Name"
  {
    ListingNameOfLine(Spaces(10), "-1", " ", "2019-11-05", " ", "10:00:00", Spaces(8), "-1", "Name");
  }

  /** `out.map(l => ...)`: the folder name of every listing line, in order,
      read by columns. */
  function FolderNames(listing: seq<string>): (folders: seq<string>)
    ensures |folders| == |listing|
    ensures forall i :: 0 <= i < |listing| ==> folders[i] == ListingName(listing[i])
  {
    seq(|listing|, i requires 0 <= i < |listing| => ListingName(listing[i]))
  }

  /** `folders.includes(folderName)`. */
  function IsFolderInDrive(listing: seq<string>, folderName: string): bool
  {
    folderName in FolderNames(listing)
  }

  /** The probe answers true exactly when some line of the listing names the folder. */
  lemma IsFolderInDriveIff(listing: seq<string>, folderName: string)
    ensures IsFolderInDrive(listing, folderName) <==> exists i :: 0 <= i < |listing| && ListingName(listing[i]) == folderName
  {
    var folders := FolderNames(listing);
    if folderName in folders {
      var i :| 0 <= i < |folders| && folders[i] == folderName;
      assert ListingName(listing[i]) == folderName;
    }
  }
}
