/** Line scanning, as the writers and the client of event streams do it: up to a
    newline, less one carriage return, with a limit on the length of a line. */
module Lines {

  /** The position of the first occurrence, or the length. */
  function Index(s: string, c: char): (i: nat)
    ensures i <= |s| && (i < |s| ==> s[i] == c) && c !in s[..i]
  {
    if s == "" || s[0] == c then 0
    else
      assert s == [s[0]] + s[1..];
      1 + Index(s[1..], c)
  }

  lemma {:induction false} IndexIs(s: string, c: char, n: nat)
    requires n <= |s| && c !in s[..n] && (n < |s| ==> s[n] == c)
    ensures Index(s, c) == n
  {
    if n > 0 {
      assert s[..n] == [s[0]] + s[1..][..n - 1];
      IndexIs(s[1..], c, n - 1);
    }
  }

  lemma SliceMembers(s: string, a: nat, b: nat)
    requires a <= b <= |s|
    ensures forall k :: a <= k < b ==> s[k] in s[a..b]
  {
    assert forall k :: a <= k < b ==> s[a..b][k - a] == s[k];
  }

  lemma Assoc(a: string, b: string, c: string)
    ensures (a + b) + c == a + (b + c)
  {
  }

  function DropCR(line: string): string {
    if line != "" && line[|line| - 1] == '\r' then line[..|line| - 1] else line
  }

  /** The lines found, and whether scanning stopped at a line too long. */
  datatype Scan = Scan(lines: seq<string>, tooLong: bool)

  function ScanLines(s: string, max: nat): Scan {
    if s == "" then Scan([], false)
    else
      var i := Index(s, '\n');
      if i >= max then Scan([], true)
      else if i == |s| then Scan([DropCR(s)], false)
      else
        var rest := ScanLines(s[i + 1..], max);
        rest.(lines := [DropCR(s[..i])] + rest.lines)
  }

  /** Some stretch of `max` characters has no newline. */
  ghost predicate LongLine(s: string, max: nat) {
    exists i :: 0 <= i <= |s| - max && Stretch(s, i, max)
  }

  ghost predicate Stretch(s: string, i: nat, max: nat)
    requires i + max <= |s|
  {
    '\n' !in s[i..i + max]
  }

  /** A long line starts after the first newline, if that comes in time. */
  lemma LongAfter(s: string, i: nat, j: nat, max: nat)
    requires max > 0 && i < |s| && s[i] == '\n' && i < max && j + max <= |s| && Stretch(s, j, max)
    ensures LongLine(s[i + 1..], max)
  {
    SliceMembers(s, j, j + max);
    assert i < j;
    var rest := s[i + 1..];
    assert s[j..j + max] == rest[j - i - 1..j - i - 1 + max];
    assert Stretch(rest, j - i - 1, max);
  }

  lemma LongBefore(s: string, i: nat, j: nat, max: nat)
    requires i < |s| && j + max <= |s| - i - 1 && Stretch(s[i + 1..], j, max)
    ensures LongLine(s, max)
  {
    assert s[j + i + 1..j + i + 1 + max] == s[i + 1..][j..j + max];
    assert Stretch(s, j + i + 1, max);
  }

  lemma LongFirst(s: string, i: nat, max: nat)
    requires max <= i <= |s| && '\n' !in s[..i]
    ensures LongLine(s, max)
  {
    assert s[..i][..max] == s[0..max];
    assert Stretch(s, 0, max);
  }

  lemma ShortLast(s: string, max: nat)
    requires |s| < max
    ensures !LongLine(s, max)
  {
  }

  /** Scanning fails exactly on a line of `max` characters or more. */
  lemma {:induction false} TooLongExactly(s: string, max: nat)
    requires max > 0
    ensures ScanLines(s, max).tooLong <==> LongLine(s, max)
    decreases |s|
  {
    if s == "" {
      ShortLast(s, max);
    } else {
      var i := Index(s, '\n');
      if i >= max {
        LongFirst(s, i, max);
      } else if i == |s| {
        ShortLast(s, max);
      } else {
        var rest := s[i + 1..];
        TooLongExactly(rest, max);
        if LongLine(s, max) {
          var j :| 0 <= j <= |s| - max && Stretch(s, j, max);
          LongAfter(s, i, j, max);
        }
        if LongLine(rest, max) {
          var j :| 0 <= j <= |rest| - max && Stretch(rest, j, max);
          LongBefore(s, i, j, max);
        }
      }
    }
  }

  /** No line has a newline in it. */
  lemma {:induction false} LinesAreLines(s: string, max: nat)
    ensures forall k :: 0 <= k < |ScanLines(s, max).lines| ==> '\n' !in ScanLines(s, max).lines[k]
    decreases |s|
  {
    if s != "" {
      var i := Index(s, '\n');
      assert s[..i] == s || i < |s|;
      if i < max && i < |s| {
        LinesAreLines(s[i + 1..], max);
      }
    }
  }

  /** And every line is within the limit. */
  lemma {:induction false} LinesFit(s: string, max: nat)
    ensures forall k :: 0 <= k < |ScanLines(s, max).lines| ==> |ScanLines(s, max).lines[k]| < max
    decreases |s|
  {
    if s != "" {
      var i := Index(s, '\n');
      if i < max && i < |s| {
        LinesFit(s[i + 1..], max);
      }
    }
  }

  lemma NothingToScan(max: nat)
    ensures ScanLines("", max) == Scan([], false)
  {
  }

  /** A line in front, ended by its newline. */
  lemma ScanLine(line: string, rest: string, max: nat)
    requires '\n' !in line && |line| < max
    ensures ScanLines(line + "\n" + rest, max) ==
            Scan([DropCR(line)] + ScanLines(rest, max).lines, ScanLines(rest, max).tooLong)
  {
    var s := line + "\n" + rest;
    assert s[..|line|] == line && s[|line|] == '\n' && s[|line| + 1..] == rest;
    IndexIs(s, '\n', |line|);
  }

  /** One step of a scanner that has not reached the end. */
  method NextLine(rest: string, max: nat) returns (line: string, next: string, tooLong: bool)
    requires rest != ""
    ensures tooLong ==> ScanLines(rest, max) == Scan([], true)
    ensures !tooLong ==> |next| < |rest| &&
                         ScanLines(rest, max) == Scan([line] + ScanLines(next, max).lines, ScanLines(next, max).tooLong)
  {
    var i := Index(rest, '\n');
    if i >= max {
      return "", "", true;
    }
    line, tooLong := DropCR(rest[..i]), false;
    if i < |rest| {
      next := rest[i + 1..];
    } else {
      next := "";
      assert rest[..i] == rest;
    }
  }
}
