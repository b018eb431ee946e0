/** The content index (pr1/gflib/content.c): a table that grows while the content file is
    read, is then sorted, and is searched by bisection. */
module Content {

  const MAX_KEYLEN: nat := 256

  datatype Entry = Entry(fildes: int, key: string)

  // ---------------------------------------------------------------- strcmp

  /** `strcmp`, on strings without terminators. */
  function StrCmp(a: string, b: string): int {
    if a == "" || b == "" then |a| - |b|
    else if a[0] != b[0] then a[0] as int - b[0] as int
    else StrCmp(a[1..], b[1..])
  }

  lemma {:induction false} StrCmpIsAnOrder(a: string, b: string, c: string)
    ensures StrCmp(a, b) == 0 <==> a == b
    ensures StrCmp(a, b) < 0 <==> StrCmp(b, a) > 0
    ensures StrCmp(a, b) <= 0 && StrCmp(b, c) <= 0 ==> StrCmp(a, c) <= 0
    ensures StrCmp(a, b) < 0 && StrCmp(b, c) <= 0 ==> StrCmp(a, c) < 0
    ensures StrCmp(a, b) <= 0 && StrCmp(b, c) < 0 ==> StrCmp(a, c) < 0
    decreases |a| + |b|
  {
    if a == "" || b == "" {
    } else {
      StrCmpIsAnOrder(a[1..], b[1..], if c == "" then "" else c[1..]);
      assert a == [a[0]] + a[1..] && b == [b[0]] + b[1..];
    }
  }

  /** Up to place `k` the strings agree, and there `a` ends or has the smaller character. */
  predicate BeforeAt(a: string, b: string, k: nat) {
    && k <= |a| && k < |b| && a[..k] == b[..k]
    && (k == |a| || a[k] < b[k])
  }

  /** `a` comes before `b` as in a dictionary. */
  ghost predicate Before(a: string, b: string) {
    exists k: nat :: BeforeAt(a, b, k)
  }

  lemma AgreeingStart(a: string, b: string, k: nat)
    requires k <= |a| && k <= |b| && a[..k] == b[..k]
    ensures forall i :: 0 <= i < k ==> a[i] == b[i]
  {
    assert forall i :: 0 <= i < k ==> a[..k][i] == a[i] && b[..k][i] == b[i];
  }

  lemma {:induction false} StrCmpIs(a: string, b: string)
    ensures StrCmp(a, b) < 0 <==> Before(a, b)
  {
    if a == "" || b == "" || a[0] != b[0] {
      assert StrCmp(a, b) < 0 ==> BeforeAt(a, b, 0);
      forall k: nat | BeforeAt(a, b, k)
        ensures k == 0
      {
        AgreeingStart(a, b, k);
      }
    } else {
      var a', b' := a[1..], b[1..];
      StrCmpIs(a', b');
      forall k: nat
        ensures BeforeAt(a', b', k) <==> BeforeAt(a, b, k + 1)
      {
        if k <= |a'| && k <= |b'| {
          assert a[..k + 1] == [a[0]] + a'[..k] && b[..k + 1] == [b[0]] + b'[..k];
          assert a'[..k] == a[..k + 1][1..] && b'[..k] == b[..k + 1][1..];
        }
      }
      if k: nat :| BeforeAt(a, b, k) {
        assert BeforeAt(a', b', k - 1);
      }
    }
  }

  // ---------------------------------------------------------------- qsort

  ghost predicate Sorted(s: seq<Entry>) {
    forall i, j :: 0 <= i < j < |s| ==> StrCmp(s[i].key, s[j].key) <= 0
  }

  function Insert(x: Entry, s: seq<Entry>): seq<Entry> {
    if s == [] || StrCmp(x.key, s[0].key) <= 0 then [x] + s else [s[0]] + Insert(x, s[1..])
  }

  function Sort(s: seq<Entry>): seq<Entry> {
    if s == [] then [] else Insert(s[0], Sort(s[1..]))
  }

  lemma {:induction false} InsertPermutes(x: Entry, s: seq<Entry>)
    ensures multiset(Insert(x, s)) == multiset([x]) + multiset(s)
  {
    if s == [] || StrCmp(x.key, s[0].key) <= 0 {
    } else {
      InsertPermutes(x, s[1..]);
      assert s == [s[0]] + s[1..];
    }
  }

  lemma {:induction false} InsertSorts(x: Entry, s: seq<Entry>)
    requires Sorted(s)
    ensures Sorted(Insert(x, s))
  {
    if s == [] {
    } else if StrCmp(x.key, s[0].key) <= 0 {
      forall j | 0 <= j < |s|
        ensures StrCmp(x.key, s[j].key) <= 0
      {
        StrCmpIsAnOrder(x.key, s[0].key, s[j].key);
      }
    } else {
      var t := Insert(x, s[1..]);
      InsertSorts(x, s[1..]);
      InsertPermutes(x, s[1..]);
      forall j | 0 <= j < |t|
        ensures StrCmp(s[0].key, t[j].key) <= 0
      {
        assert t[j] in multiset(t);
        StrCmpIsAnOrder(x.key, s[0].key, x.key);
      }
    }
  }

  lemma {:induction false} SortSorts(s: seq<Entry>)
    ensures Sorted(Sort(s)) && multiset(Sort(s)) == multiset(s)
  {
    if s == [] {
    } else {
      SortSorts(s[1..]);
      InsertSorts(s[0], Sort(s[1..]));
      InsertPermutes(s[0], Sort(s[1..]));
      assert s == [s[0]] + s[1..];
    }
  }

  // ---------------------------------------------------------------- a line of the content file

  predicate IsDelimiter(c: char) {
    c == ' ' || c == '\t'
  }

  /** `strsep`: the piece up to the first delimiter, and what follows, if there was one. */
  datatype Piece = Piece(text: string, more: bool, rest: string)

  function StrSep(s: string): (p: Piece)
    ensures forall c :: c in p.text ==> !IsDelimiter(c)
    ensures if p.more then exists d :: IsDelimiter(d) && s == p.text + [d] + p.rest else s == p.text
  {
    if s == "" then Piece("", false, "")
    else if IsDelimiter(s[0]) then
      assert s == "" + [s[0]] + s[1..];
      Piece("", true, s[1..])
    else
      var p := StrSep(s[1..]);
      assert s == [s[0]] + s[1..];
      assert forall d :: s[1..] == p.text + [d] + p.rest ==> s == [s[0]] + p.text + [d] + p.rest;
      Piece([s[0]] + p.text, p.more, p.rest)
  }

  /** What `fgets` can store: at most `MAX_KEYLEN - 1` characters, and not none. */
  predicate IsLine(line: string) {
    1 <= |line| < MAX_KEYLEN
  }

  predicate AreLines(lines: seq<string>) {
    forall i :: 0 <= i < |lines| ==> IsLine(lines[i])
  }

  /** The C string in the buffer: a terminator inside the line ends it. */
  function Text(line: string): (t: string)
    ensures '\0' !in t && t <= line && (|t| < |line| ==> line[|t|] == '\0')
  {
    if line == "" || line[0] == '\0' then "" else [line[0]] + Text(line[1..])
  }

  /** The text without its last character, whatever that is. */
  function Chopped(text: string): string
    requires text != ""
  {
    text[..|text| - 1]
  }

  /** The key that is cut off; there is none in an empty text. */
  function KeyOf(line: string): string {
    if Text(line) == "" then "" else StrSep(Chopped(Text(line))).text
  }

  /** `open` gets a path if there is a delimiter at all; otherwise it gets NULL and fails. */
  predicate HasPath(line: string) {
    Text(line) != "" && StrSep(Chopped(Text(line))).more
  }

  function PathOf(line: string): string
    requires HasPath(line)
  {
    StrSep(StrSep(Chopped(Text(line))).rest).text
  }

  lemma {:induction false} StrSepFirst(a: string, d: char, b: string)
    requires IsDelimiter(d) && forall c :: c in a ==> !IsDelimiter(c)
    ensures StrSep(a + [d] + b) == Piece(a, true, b)
  {
    if a == "" {
      assert (a + [d] + b)[1..] == b;
    } else {
      StrSepFirst(a[1..], d, b);
      assert (a + [d] + b)[1..] == a[1..] + [d] + b;
    }
  }

  lemma {:induction false} StrSepLast(a: string)
    requires forall c :: c in a ==> !IsDelimiter(c)
    ensures StrSep(a) == Piece(a, false, "")
  {
    if a == "" {
    } else {
      StrSepLast(a[1..]);
    }
  }

  lemma {:induction false} TextOfWhole(s: string)
    requires '\0' !in s
    ensures Text(s) == s
  {
    if s == "" {
    } else {
      TextOfWhole(s[1..]);
    }
  }

  predicate IsField(s: string) {
    forall c :: c in s ==> c != ' ' && c != '\t' && c != '\0'
  }

  lemma TerminatedLine(key: string, path: string, d: char, eol: char)
    requires (d == ' ' || d == '\t') && IsField(key) && IsField(path) && eol != '\0'
    ensures var line := key + [d] + path + [eol];
            KeyOf(line) == key && HasPath(line) && PathOf(line) == path
  {
    TextOfWhole(key + [d] + path + [eol]);
    assert Chopped(key + [d] + path + [eol]) == key + [d] + path;
    StrSepFirst(key, d, path);
    StrSepLast(path);
  }

  /** A line with a key, a delimiter, a path and at most one character behind it is taken apart
      as it was put together if and only if there is such a character.  Without it, the path
      loses its last character, or is not found at all if it is empty. */
  lemma LineIsReadBackIff(key: string, path: string, d: char, eol: string)
    requires (d == ' ' || d == '\t') && IsField(key) && IsField(path) && |eol| <= 1 && '\0' !in eol
    ensures var line := key + [d] + path + eol;
            && KeyOf(line) == key
            && (HasPath(line) <==> path + eol != "")
            && (HasPath(line) && PathOf(line) == path <==> eol != "")
            && (eol == "" && path != "" ==> PathOf(line) == path[..|path| - 1])
  {
    var line := key + [d] + path + eol;
    if eol != "" {
      TerminatedLine(key, path, d, eol[0]);
      assert eol == [eol[0]];
    } else if path != "" {
      var front, last := path[..|path| - 1], path[|path| - 1];
      assert line == key + [d] + front + [last] && last in path;
      assert forall c :: c in front ==> c in path;
      TerminatedLine(key, front, d, last);
    } else {
      TextOfWhole(line);
      assert Chopped(line) == key;
      StrSepLast(key);
    }
  }

  // ---------------------------------------------------------------- the table

  /** The entries that the lines describe, `fds` being the results of the calls of `open`. */
  function Entries(lines: seq<string>, fds: seq<int>): (s: seq<Entry>)
    requires |fds| == |lines| && AreLines(lines)
    ensures |s| == |lines|
  {
    seq(|lines|, i requires 0 <= i < |lines| => Entry(fds[i], KeyOf(lines[i])))
  }

  lemma EntryAt(lines: seq<string>, fds: seq<int>, i: nat)
    requires |fds| == |lines| && AreLines(lines) && i < |lines|
    ensures Entries(lines, fds)[i] == Entry(fds[i], KeyOf(lines[i]))
  {
  }

  predicate AllOpen(lines: seq<string>, fds: seq<int>)
    requires |fds| == |lines| && AreLines(lines)
  {
    forall i :: 0 <= i < |lines| ==> HasPath(lines[i]) && fds[i] >= 0
  }

  /** What becomes of the process while it reads the file: the index is ready; the process exits
      because a file cannot be opened; or it writes before the buffer of an empty text. */
  datatype Loaded = Ready | Exited | Unspecified

  /** What one line leads to, `fd` being the result of the call of `open`. */
  function Reading(line: string, fd: int): Loaded {
    if Text(line) == "" then Unspecified else if !HasPath(line) || fd < 0 then Exited else Ready
  }

  /** What the lines from `i` on lead to. */
  function Loading(lines: seq<string>, fds: seq<int>, i: nat): Loaded
    requires |fds| == |lines| && i <= |lines|
    decreases |lines| - i
  {
    if i == |lines| then Ready
    else if Reading(lines[i], fds[i]) != Ready then Reading(lines[i], fds[i])
    else Loading(lines, fds, i + 1)
  }

  lemma {:induction false} ReadyIff(lines: seq<string>, fds: seq<int>, i: nat)
    requires |fds| == |lines| && i <= |lines|
    ensures Loading(lines, fds, i) == Ready
            <==> forall j :: i <= j < |lines| ==> HasPath(lines[j]) && fds[j] >= 0
    decreases |lines| - i
  {
    if i == |lines| {
    } else {
      ReadyIff(lines, fds, i + 1);
    }
  }

  /** Line `i` is the first one that is not ready. */
  ghost predicate FirstFailure(lines: seq<string>, fds: seq<int>, i: nat)
    requires |fds| == |lines|
  {
    && i < |lines| && !(HasPath(lines[i]) && fds[i] >= 0)
    && forall j :: 0 <= j < i ==> HasPath(lines[j]) && fds[j] >= 0
  }

  lemma {:induction false} FailureAt(lines: seq<string>, fds: seq<int>, i: nat, k: nat)
    requires |fds| == |lines| && k <= i && FirstFailure(lines, fds, i)
    ensures Loading(lines, fds, k) == if Text(lines[i]) == "" then Unspecified else Exited
    decreases i - k
  {
    if k == i {
    } else {
      FailureAt(lines, fds, i, k + 1);
    }
  }

  lemma {:induction false} NoDelimiterNoPath(s: string)
    ensures StrSep(s).more <==> exists c :: c in s && IsDelimiter(c)
  {
    if s == "" || IsDelimiter(s[0]) {
      assert s != "" ==> s[0] in s;
    } else {
      NoDelimiterNoPath(s[1..]);
      assert s == [s[0]] + s[1..];
    }
  }

  /** The first line that is not ready decides: an empty text leaves open what happens; otherwise
      the path is missing or its file cannot be opened, and the process exits. */
  lemma FirstFailureDecides(lines: seq<string>, fds: seq<int>, i: nat)
    requires |fds| == |lines| && FirstFailure(lines, fds, i)
    ensures Loading(lines, fds, 0) == Unspecified <==> Text(lines[i]) == ""
    ensures Loading(lines, fds, 0) == Exited <==>
            Text(lines[i]) != "" && (fds[i] < 0 || forall c :: c in Chopped(Text(lines[i])) ==> c != ' ' && c != '\t')
  {
    FailureAt(lines, fds, i, 0);
    if Text(lines[i]) != "" {
      NoDelimiterNoPath(Chopped(Text(lines[i])));
    }
  }

  lemma WhenReady(lines: seq<string>, fds: seq<int>)
    requires |fds| == |lines| && AreLines(lines)
    ensures Loading(lines, fds, 0) == Ready <==> AllOpen(lines, fds)
  {
    ReadyIff(lines, fds, 0);
  }

  /** Plain lookup: the first entry with the key, or -1. */
  function Lookup(s: seq<Entry>, key: string): int {
    if s == [] then -1 else if s[0].key == key then s[0].fildes else Lookup(s[1..], key)
  }

  predicate DistinctKeys(s: seq<Entry>) {
    forall i, j :: 0 <= i < j < |s| ==> s[i].key != s[j].key
  }

  lemma {:induction false} LookupFinds(s: seq<Entry>, e: Entry)
    requires DistinctKeys(s)
    ensures e in s ==> Lookup(s, e.key) == e.fildes
    ensures (forall x :: x in s ==> x.key != e.key) ==> Lookup(s, e.key) == -1
  {
    if s == [] {
    } else {
      LookupFinds(s[1..], e);
      assert s == [s[0]] + s[1..];
    }
  }

  class Index {
    var items: array<Entry>
    var nitems: nat

    ghost predicate Valid()
      reads this, items
    {
      nitems <= items.Length && Sorted(items[..nitems])
    }

    constructor ()
      ensures Valid() && fresh(items) && nitems == 0
    {
      items := new Entry[0];
      nitems := 0;
    }

    /** `qsort`: some sorted permutation of the first `n` entries. */
    method QSort(n: nat)
      requires n <= items.Length
      modifies items
      ensures Sorted(items[..n]) && multiset(items[..n]) == multiset(old(items[..n]))
    {
      var sorted := Sort(items[..n]);
      SortSorts(items[..n]);
      assert |sorted| == n by { assert |multiset(sorted)| == |multiset(items[..n])|; }
      forall i | 0 <= i < n {
        items[i] := sorted[i];
      }
      assert items[..n] == sorted;
    }

    /** `realloc` to twice the capacity. */
    method Grow()
      requires 0 < items.Length
      modifies this
      ensures fresh(items) && items.Length == 2 * old(items.Length) && nitems == old(nitems)
      ensures items[..old(items.Length)] == old(items[..])
    {
      var bigger := new Entry[2 * items.Length];
      forall i | 0 <= i < items.Length {
        bigger[i] := items[i];
      }
      items := bigger;
    }

    /** Lines 47-52: the entry is in, and if the table is full now, it grows. */
    method Append(entry: Entry)
      requires nitems < items.Length
      modifies this, items
      ensures nitems == old(nitems) + 1 && nitems < items.Length
      ensures items == old(items) || fresh(items)
      ensures items[..nitems] == old(items[..nitems]) + [entry]
    {
      items[nitems] := entry;
      nitems := nitems + 1;
      if nitems == items.Length {
        Grow();
      }
    }

    /** Lines 36-46: the entry of one line, `fd` being the result of the call of `open`. */
    method ReadEntry(line: string, fd: int) returns (r: Loaded, entry: Entry)
      ensures r == Reading(line, fd)
      ensures r == Ready ==> entry == Entry(fd, KeyOf(line))
    {
      var text := Text(line);
      entry := Entry(fd, "");
      if text == "" {
        return Unspecified, entry;
      }
      var key := StrSep(Chopped(text));
      entry := Entry(fd, key.text);
      r := if !key.more || fd < 0 then Exited else Ready;
    }

    /** Lines 31-54: the loop over the lines that `fgets` stores. */
    method ReadLines(lines: seq<string>, fds: seq<int>) returns (r: Loaded)
      requires |fds| == |lines| && AreLines(lines)
      modifies this
      ensures r == Loading(lines, fds, 0)
      ensures r == Ready ==> fresh(items) && nitems == |lines| <= items.Length && items[..nitems] == Entries(lines, fds)
    {
      hide Text, KeyOf, HasPath, Reading, Entries;
      items := new Entry[16];
      nitems := 0;
      while nitems < |lines|
        invariant fresh(items) && nitems < items.Length && nitems <= |lines|
        invariant Loading(lines, fds, 0) == Loading(lines, fds, nitems)
        invariant items[..nitems] == Entries(lines, fds)[..nitems]
        decreases |lines| - nitems
      {
        var entry;
        r, entry := ReadEntry(lines[nitems], fds[nitems]);
        if r != Ready {
          return;
        }
        EntryAt(lines, fds, nitems);
        Append(entry);
      }
      r := Ready;
    }

    /** `content_init`. */
    method Init(lines: seq<string>, fds: seq<int>) returns (r: Loaded)
      requires |fds| == |lines| && AreLines(lines)
      modifies this
      ensures r == Loading(lines, fds, 0) && (r == Ready <==> AllOpen(lines, fds))
      ensures r == Ready ==>
                && Valid() && fresh(items) && nitems == |lines|
                && multiset(items[..nitems]) == multiset(Entries(lines, fds))
    {
      WhenReady(lines, fds);
      hide Sorted, Loading, Entries, AllOpen;
      r := ReadLines(lines, fds);
      if r == Ready {
        QSort(nitems);
      }
    }

    /** `content_get`: the descriptor of an entry with the key, or -1 if there is none. */
    method Get(key: string) returns (fd: int)
      requires Valid()
      ensures if exists i :: 0 <= i < nitems && items[i].key == key
              then exists i :: 0 <= i < nitems && items[i].key == key && fd == items[i].fildes
              else fd == -1
    {
      var lo, hi: int := 0, nitems - 1;
      while lo <= hi
        invariant 0 <= lo && hi < nitems && lo <= hi + 1
        invariant forall i :: 0 <= i < lo ==> StrCmp(items[i].key, key) < 0
        invariant forall i :: hi < i < nitems ==> StrCmp(key, items[i].key) < 0
      {
        var mid := lo + (hi - lo) / 2;
        var cmp := StrCmp(key, items[mid].key);
        StrCmpIsAnOrder(key, items[mid].key, key);
        assert forall i :: 0 <= i < nitems ==> items[i] == items[..nitems][i];
        if cmp < 0 {
          forall i | mid <= i < nitems
            ensures StrCmp(key, items[i].key) < 0
          {
            StrCmpIsAnOrder(key, items[mid].key, items[i].key);
          }
          hi := mid - 1;
        } else if cmp > 0 {
          forall i | 0 <= i <= mid
            ensures StrCmp(items[i].key, key) < 0
          {
            StrCmpIsAnOrder(items[mid].key, key, key);
            StrCmpIsAnOrder(items[i].key, items[mid].key, key);
          }
          lo := mid + 1;
        } else {
          return items[mid].fildes;
        }
      }
      forall i | 0 <= i < nitems
        ensures items[i].key != key
      {
        StrCmpIsAnOrder(key, items[i].key, key);
      }
      fd := -1;
    }
  }

  lemma SameElements<T>(s: seq<T>, t: seq<T>)
    requires multiset(s) == multiset(t)
    ensures forall e :: e in s <==> e in t
  {
    assert forall e :: e in s <==> e in multiset(s);
    assert forall e :: e in t <==> e in multiset(t);
  }

  /** The index agrees with plain lookup in the lines, if their keys are distinct; with
      repeated keys, it still finds one of the entries, or none when there is none. */
  method InitAndGet(lines: seq<string>, fds: seq<int>, key: string) returns (r: Loaded, fd: int)
    requires |fds| == |lines| && AreLines(lines)
    ensures r == Loading(lines, fds, 0) && (r == Ready <==> AllOpen(lines, fds))
    ensures r == Ready && DistinctKeys(Entries(lines, fds)) ==> fd == Lookup(Entries(lines, fds), key)
    ensures r == Ready ==> fd == -1 || Entry(fd, key) in Entries(lines, fds)
    ensures r == Ready ==> (fd == -1 <==> forall e :: e in Entries(lines, fds) ==> e.key != key)
  {
    hide Lookup, StrCmp, Sorted;
    var index := new Index();
    r := index.Init(lines, fds);
    fd := -1;
    if r == Ready {
      fd := index.Get(key);
      ghost var s, table := Entries(lines, fds), index.items[..index.nitems];
      SameElements(s, table);
      assert forall i :: 0 <= i < index.nitems ==> index.items[i] == table[i] && table[i] in table;
      if DistinctKeys(s) {
        LookupFinds(s, Entry(fd, key));
      }
    }
  }
}
