/** The download program (pr1/gflib/gfclient_download.c): local names, directories, and the
    loop over the requests. */
module Download {
  import opened CString
  import opened Decimal
  import Workload

  const INT_MAX: nat := 0x7fff_ffff

  // ---------------------------------------------------------------- local names

  function Zeros(k: nat): (s: string)
    ensures |s| == k && forall c :: c in s ==> c == '0'
  {
    if k == 0 then "" else "0" + Zeros(k - 1)
  }

  /** `%06d` of a number that is not negative. */
  function Padded(n: nat): (s: string)
    ensures forall c :: c in s ==> IsDigit(c)
  {
    var d := Print(n);
    if |d| >= 6 then d else Zeros(6 - |d|) + d
  }

  /** `localPath`: the path without its first character, a dash, and the counter. */
  function LocalName(path: string, counter: nat): string
    requires path != ""
  {
    path[1..] + "-" + Padded(counter)
  }

  function AfterLastDash(s: string): string {
    if s == "" || s[|s| - 1] == '-' then "" else AfterLastDash(s[..|s| - 1]) + [s[|s| - 1]]
  }

  lemma {:induction false} AfterLastDashIs(s: string, d: string)
    requires '-' !in d
    ensures AfterLastDash(s + "-" + d) == d
  {
    var t := s + "-" + d;
    if d == "" {
      assert t[|t| - 1] == '-';
    } else {
      AfterLastDashIs(s, d[..|d| - 1]);
      assert t[..|t| - 1] == s + "-" + d[..|d| - 1];
      assert t[|t| - 1] == d[|d| - 1] && d[|d| - 1] in d;
      assert d[..|d| - 1] + [d[|d| - 1]] == d;
    }
  }

  lemma {:induction false} LeadingZero(s: string)
    requires forall c :: c in s ==> IsDigit(c)
    ensures Value("0" + s) == Value(s)
  {
    if s == "" {
      assert ("0" + s)[..0] == "";
    } else {
      LeadingZero(s[..|s| - 1]);
      assert ("0" + s)[..|"0" + s| - 1] == "0" + s[..|s| - 1];
    }
  }

  lemma {:induction false} LeadingZeros(k: nat, s: string)
    requires forall c :: c in s ==> IsDigit(c)
    ensures (forall c :: c in Zeros(k) + s ==> IsDigit(c)) && Value(Zeros(k) + s) == Value(s)
  {
    hide Value;
    if k == 0 {
      assert Zeros(0) + s == s;
    } else {
      LeadingZeros(k - 1, s);
      LeadingZero(Zeros(k - 1) + s);
      assert Zeros(k) + s == "0" + (Zeros(k - 1) + s);
    }
  }

  /** The counter can be read off the name, whatever the path. */
  lemma CounterIsRecoverable(path: string, counter: nat)
    requires path != ""
    ensures var digits := AfterLastDash(LocalName(path, counter));
            (forall c :: c in digits ==> IsDigit(c)) && Value(digits) == counter
  {
    assert '-' !in Padded(counter);
    AfterLastDashIs(path[1..], Padded(counter));
    ValueOfPrint(counter);
    var d := Print(counter);
    if |d| < 6 {
      LeadingZeros(6 - |d|, d);
    }
  }

  /** What stands before the last dash. */
  function BeforeLastDash(s: string): string {
    if s == "" then "" else if s[|s| - 1] == '-' then s[..|s| - 1] else BeforeLastDash(s[..|s| - 1])
  }

  lemma {:induction false} BeforeLastDashIs(s: string, d: string)
    requires '-' !in d
    ensures BeforeLastDash(s + "-" + d) == s
  {
    var t := s + "-" + d;
    if d == "" {
      assert t[|t| - 1] == '-' && t[..|t| - 1] == s;
    } else {
      BeforeLastDashIs(s, d[..|d| - 1]);
      assert t[..|t| - 1] == s + "-" + d[..|d| - 1];
      assert t[|t| - 1] == d[|d| - 1] && d[|d| - 1] in d;
    }
  }

  lemma PaddedLength(n: nat)
    ensures |Padded(n)| >= 6 && (|Padded(n)| > 6 ==> Padded(n) == Print(n) && n > 0)
  {
    if |Print(n)| > 6 {
      assert |Print(0)| == 1;
    }
  }

  /** A local name is the path without its first character, a dash, and at least six digits; more
      only if there is no leading zero. */
  lemma NameShape(path: string, counter: nat)
    requires path != ""
    ensures var name := LocalName(path, counter);
            var digits := AfterLastDash(name);
            && name == path[1..] + "-" + digits && BeforeLastDash(name) == path[1..]
            && (forall c :: c in digits ==> IsDigit(c)) && Value(digits) == counter
            && |digits| >= 6 && (|digits| > 6 ==> digits[0] != '0')
  {
    CounterIsRecoverable(path, counter);
    assert '-' !in Padded(counter);
    AfterLastDashIs(path[1..], Padded(counter));
    NoLeadingZero(counter);
    PaddedLength(counter);
    BeforeLastDashIs(path[1..], Padded(counter));
  }

  lemma NamesDiffer(p: string, i: nat, q: string, j: nat)
    requires p != "" && q != "" && i != j
    ensures LocalName(p, i) != LocalName(q, j)
  {
    CounterIsRecoverable(p, i);
    CounterIsRecoverable(q, j);
  }

  /** A name of an admitted path fits the 512 bytes of `local_path`, with its terminator. */
  lemma NameFits(path: string, counter: nat)
    requires 1 <= |path| <= 256 && counter <= INT_MAX
    ensures |LocalName(path, counter)| + 1 <= 512
  {
    assert Power10(5) == 100_000;
    assert Power10(10) == 10_000_000_000;
    PrintLength(counter, 10);
  }

  // ---------------------------------------------------------------- directories

  /** Every beginning of `text` that ends before a slash at position `i` or later, in order. */
  function Directories(text: string, i: nat): seq<string>
    decreases |text| - i
  {
    if i >= |text| then []
    else (if text[i] == '/' then [text[..i]] else []) + Directories(text, i + 1)
  }

  lemma {:induction false} DirectoriesAre(text: string, i: nat, d: string)
    ensures d in Directories(text, i) <==> i <= |d| < |text| && d <= text && text[|d|] == '/'
    decreases |text| - i
  {
    if i >= |text| {
    } else {
      DirectoriesAre(text, i + 1, d);
      assert |d| == i && d <= text ==> d == text[..i];
    }
  }

  /** Each directory comes after the directories that contain it. */
  lemma {:induction false} ParentsFirst(text: string, i: nat, a: nat, b: nat)
    requires a < b < |Directories(text, i)|
    ensures Directories(text, i)[a] < Directories(text, i)[b]
    decreases |text| - i
  {
    if text[i] != '/' {
      ParentsFirst(text, i + 1, a, b);
    } else if a > 0 {
      ParentsFirst(text, i + 1, a - 1, b - 1);
    } else {
      var d := Directories(text, i)[b];
      assert d == Directories(text, i + 1)[b - 1];
      DirectoriesAre(text, i + 1, d);
    }
  }

  lemma {:induction false} NoSlashNoDirectory(text: string, i: nat, j: nat)
    requires i <= j <= |text| && '/' !in text[i..j]
    ensures Directories(text, i) == Directories(text, j)
    decreases j - i
  {
    if i >= j {
    } else {
      assert text[i] == text[i..j][0];
      assert forall k :: i + 1 <= k < j ==> text[k] == text[i..j][k - i];
      NoSlashNoDirectory(text, i + 1, j);
    }
  }

  lemma NextDirectory(text: string, i: nat, cur: nat)
    requires i <= cur < |text| && text[cur] == '/' && '/' !in text[i..cur]
    ensures Directories(text, i) == [text[..cur]] + Directories(text, cur + 1)
  {
    NoSlashNoDirectory(text, i, cur);
  }

  datatype MkdirResult = Made | AlreadyThere | Refused

  lemma NothingLeft(text: string)
    ensures Directories(text, |text|) == []
  {
  }

  method ReadText(buf: array<char>) returns (t: string)
    ensures t == TextOf(buf[..])
  {
    var library := new Strtok(buf);
    t := library.ReadText(0);
    assert buf[0..] == buf[..];
  }

  /** `strchr`: the next `c` in the string, or -1. */
  method StrChr(buf: array<char>, start: nat, c: char) returns (i: int)
    requires NUL in buf[..] && start <= |TextOf(buf[..])| && c != NUL
    ensures var text := TextOf(buf[..]);
            if i >= 0 then start <= i < |text| && text[i] == c && c !in text[start..i]
            else c !in text[start..]
  {
    ghost var text := TextOf(buf[..]);
    TextEnds(buf[..]);
    i := start;
    while buf[i] != NUL && buf[i] != c
      invariant start <= i <= |text| && c !in text[start..i]
      decreases |text| - i
    {
      assert buf[i] == buf[..][i] && i < |text|;
      i := i + 1;
    }
    assert buf[i] == buf[..][i];
    if buf[i] == NUL {
      assert i == |text|;
      i := -1;
    }
  }

  /** The directory loop of `openFile` on the path in `buf`; `results` are the answers to the
      calls of `mkdir`, and false stands for the exit when one is refused. */
  method MakeDirectories(buf: array<char>, results: nat -> MkdirResult) returns (made: seq<string>, ok: bool)
    requires NUL in buf[..] && TextOf(buf[..]) != ""
    modifies buf
    ensures ok ==> made == Directories(TextOf(old(buf[..])), 1) && buf[..] == old(buf[..])
    ensures !ok ==> made <= Directories(TextOf(old(buf[..])), 1) && made != [] && results(|made| - 1) == Refused
    ensures ok <==> forall k :: 0 <= k < |Directories(TextOf(old(buf[..])), 1)| ==> results(k) != Refused
  {
    hide Directories;
    ghost var text, before := TextOf(buf[..]), buf[..];
    var prev := 0;
    made, ok := [], true;
    var cur := StrChr(buf, prev + 1, '/');
    while cur >= 0
      invariant buf[..] == before && 0 <= prev < |text|
      invariant if cur >= 0 then prev < cur < |text| && text[cur] == '/' && '/' !in text[prev + 1..cur]
                else '/' !in text[prev + 1..]
      invariant Directories(text, 1) == made + Directories(text, prev + 1)
      invariant forall k :: 0 <= k < |made| ==> results(k) != Refused
      decreases if cur >= 0 then |text| - prev else 0
    {
      NextDirectory(text, prev + 1, cur);
      buf[cur] := NUL;
      TextOfIs(text[..cur], buf[..]);
      var path := ReadText(buf);
      made := made + [path];
      if results(|made| - 1) == Refused {
        ok := false;
        return;
      }
      buf[cur] := '/';
      assert buf[..] == before;
      prev := cur;
      cur := StrChr(buf, prev + 1, '/');
    }
    NoSlashNoDirectory(text, prev + 1, |text|);
    NothingLeft(text);
  }

  // ---------------------------------------------------------------- the request loop

  /** The static counter of `localPath`. */
  class Names {
    var counter: nat

    constructor ()
      ensures counter == 0
    {
      counter := 0;
    }

    method LocalPath(path: string) returns (name: string)
      requires path != "" && counter <= INT_MAX
      modifies this
      ensures name == LocalName(path, old(counter)) && counter == old(counter) + 1
    {
      name := LocalName(path, counter);
      counter := counter + 1;
    }
  }

  /** What a local name of the `i`-th request for `path` looks like. */
  predicate IsNameOf(name: string, path: string, i: nat)
    requires path != ""
  {
    var digits := AfterLastDash(name);
    && name == path[1..] + "-" + digits
    && (forall c :: c in digits ==> IsDigit(c)) && Value(digits) == i
    && |digits| >= 6 && (|digits| > 6 ==> digits[0] != '0')
  }

  lemma NameIs(path: string, i: nat)
    requires path != ""
    ensures IsNameOf(LocalName(path, i), path, i)
  {
    NameShape(path, i);
  }

  /** The loop of `main` for `k` requests: it stops at a path that is too long; the local names
      of all requests are pairwise distinct, even when paths repeat, and fit the buffer. */
  method RequestLoop(paths: seq<string>, k: nat) returns (names: seq<string>)
    requires 0 < |paths| && forall i :: 0 <= i < |paths| ==> paths[i] != ""
    requires k <= INT_MAX
    ensures |names| <= k
    ensures |names| < k ==> |paths[|names| % |paths|]| > 256
    ensures forall i :: 0 <= i < |names| ==> names[i] == LocalName(paths[i % |paths|], i) && |names[i]| + 1 <= 512
    ensures forall i :: 0 <= i < |names| ==> IsNameOf(names[i], paths[i % |paths|], i)
    ensures forall i, j :: 0 <= i < j < |names| ==> names[i] != names[j]
  {
    hide LocalName, IsNameOf;
    var generator := new Workload.Generator(paths);
    var locals := new Names();
    names := [];
    for i := 0 to k
      invariant generator.counter == i && locals.counter == i && |names| == i
      invariant forall i :: 0 <= i < |names| ==> names[i] == LocalName(paths[i % |paths|], i) && |names[i]| + 1 <= 512
      invariant forall i :: 0 <= i < |names| ==> IsNameOf(names[i], paths[i % |paths|], i)
      invariant forall i, j :: 0 <= i < j < |names| ==> names[i] != names[j]
    {
      var path := generator.GetPath();
      if |path| > 256 {
        return;
      }
      var name := locals.LocalPath(path);
      NameFits(path, i);
      assert IsNameOf(name, path, i) by { NameIs(path, i); }
      forall j | 0 <= j < i
        ensures names[j] != name
      {
        NamesDiffer(paths[j % |paths|], j, path, i);
      }
      names := names + [name];
    }
  }
}
