/** `RepeatedNamesValidator`: the gate run before a batch that refuses to go on when two
    of the candidate files would get the same normalised name.  A file is represented
    by its name (`File.getName`), the only part of it the validator reads. */
module Validation {
  import opened Text
  import opened NameConverter

  /** `f` applied to every name, in order. */
  function MapNames(f: string -> string, names: seq<string>): (ns: seq<string>)
    ensures |ns| == |names| && forall i :: 0 <= i < |names| ==> ns[i] == f(names[i])
  {
    seq(|names|, i requires 0 <= i < |names| => f(names[i]))
  }

  /** The normalised names, in the order the files were read. */
  function Normalized(names: seq<string>): seq<string>
  {
    MapNames(NormalizeFileName, names)
  }

  /** `Collections.frequency`: how many times `x` occurs in `s`. */
  function Frequency(s: seq<string>, x: string): (n: nat)
    ensures n == multiset(s)[x]
  {
    if s == [] then 0
    else
      assert s == [s[0]] + s[1..];
      (if s[0] == x then 1 else 0) + Frequency(s[1..], x)
  }

  /** The names that occur more than once, each once: the set the stream collects. */
  function Repeated(names: seq<string>): set<string>
  {
    set x | x in names && Frequency(names, x) > 1
  }

  predicate Distinct(s: seq<string>) {
    forall i, j :: 0 <= i < j < |s| ==> s[i] != s[j]
  }

  /** Taking out the element at `k` takes one occurrence of it out of the multiset. */
  lemma RemoveAt(s: seq<string>, k: nat)
    requires k < |s|
    ensures multiset(s) == multiset(s[..k] + s[k + 1..]) + multiset{s[k]}
  {
    assert s == s[..k] + [s[k]] + s[k + 1..];
  }

  /** A name is repeated exactly when it stands at two different positions. */
  lemma RepeatedAt(names: seq<string>, x: string)
    ensures x in Repeated(names) <==> exists i, j :: 0 <= i < j < |names| && names[i] == x && names[j] == x
  {
    if x in Repeated(names) {
      var i :| 0 <= i < |names| && names[i] == x;
      SecondOccurrence(names, i);
    }
    if exists i, j :: 0 <= i < j < |names| && names[i] == x && names[j] == x {
      var i, j :| 0 <= i < j < |names| && names[i] == x && names[j] == x;
      TwoOccurrences(names, i, j);
    }
  }

  lemma SecondOccurrence(names: seq<string>, i: nat)
    requires i < |names| && multiset(names)[names[i]] > 1
    ensures exists i', j :: 0 <= i' < j < |names| && names[i'] == names[i] && names[j] == names[i]
  {
    var x := names[i];
    var rest := names[..i] + names[i + 1..];
    RemoveAt(names, i);
    assert x in multiset(rest);
    var k :| 0 <= k < |rest| && rest[k] == x;
    if k < i {
      assert names[k] == x;
    } else {
      assert names[k + 1] == x;
    }
  }

  lemma TwoOccurrences(names: seq<string>, i: nat, j: nat)
    requires i < j < |names| && names[i] == names[j]
    ensures multiset(names)[names[i]] > 1
  {
    RemoveAt(names, j);
    assert (names[..j] + names[j + 1..])[i] == names[i];
  }

  /** No name is repeated exactly when all the names are different. */
  lemma RepeatedEmpty(names: seq<string>)
    ensures Repeated(names) == {} <==> Distinct(names)
  {
    if Repeated(names) != {} {
      var x :| x in Repeated(names);
      RepeatedAt(names, x);
    }
    if !Distinct(names) {
      var i, j :| 0 <= i < j < |names| && names[i] == names[j];
      RepeatedAt(names, names[i]);
    }
  }

  /** What `validate` decides: go on, or stop on the set of conflicting names. */
  datatype Verdict = Accepted | Conflict(repeated: set<string>)

  /** The decision on a list of normalised names: stop exactly when a name is repeated,
      and report each name that stands at two positions. */
  function Decide(keys: seq<string>): (v: Verdict)
    ensures v.Accepted? <==> Distinct(keys)
    ensures v.Conflict? ==> v.repeated != {} && forall x :: x in v.repeated <==>
      exists i, j :: 0 <= i < j < |keys| && keys[i] == x && keys[j] == x
  {
    var r := Repeated(keys);
    RepeatedEmpty(keys);
    forall x
      ensures x in r <==> exists i, j :: 0 <= i < j < |keys| && keys[i] == x && keys[j] == x
    {
      RepeatedAt(keys, x);
    }
    if r == {} then Accepted else Conflict(r)
  }

  /** `validate` on the files read so far. */
  function Check(files: seq<string>): Verdict
  {
    Decide(Normalized(files))
  }

  /** The first line of the exception message. */
  const Header := "The following files have a naming conflict:"

  /** The exception message for a listing of the repeated names: the header, a line
      separator, and the names joined by line separators.  The platform line separator
      (`%n`, `System.lineSeparator`) is the parameter `eol`. */
  function ConflictMessage(listing: seq<string>, eol: string): (m: string)
    ensures StartsWith(m, Header + eol)
    ensures m[|Header + eol|..] == Join(eol, listing)
  {
    var m := Header + eol + Join(eol, listing);
    assert m[..|Header + eol|] == Header + eol;
    m
  }

  /** `listing` names every element of `s` exactly once: what turning the set into a
      list does, in an order the hash set does not fix. */
  ghost predicate Enumerates(listing: seq<string>, s: set<string>) {
    Distinct(listing) && (forall x :: x in listing <==> x in s)
  }

  /** Every set of names can be listed, so a conflict always has a message. */
  lemma {:induction false} Enumerable(s: set<string>)
    ensures exists listing :: Enumerates(listing, s)
    decreases |s|
  {
    if s == {} {
      assert Enumerates([], s);
    } else {
      var x :| x in s;
      Enumerable(s - {x});
      var rest :| Enumerates(rest, s - {x});
      var listing := [x] + rest;
      assert listing[1..] == rest;
      assert Enumerates(listing, s);
    }
  }

  /** The message of a conflict found in `files` names each repeated name once and only
      those: a listing of the verdict's set is never empty, holds no name twice, and holds
      exactly the normalised names found at two positions. */
  lemma ConflictMessageNames(files: seq<string>, listing: seq<string>, eol: string)
    requires Check(files).Conflict? && Enumerates(listing, Check(files).repeated)
    ensures listing != [] && Distinct(listing)
    ensures forall x :: x in listing <==>
      exists i, j :: 0 <= i < j < |Normalized(files)| && Normalized(files)[i] == x && Normalized(files)[j] == x
    ensures StartsWith(ConflictMessage(listing, eol), Header + eol)
  {
    var x :| x in Check(files).repeated;
    assert x in listing;
  }

  /** Mapping a reordering of the names reorders the results. */
  lemma {:induction false} MapPermutes(f: string -> string, a: seq<string>, b: seq<string>)
    requires multiset(a) == multiset(b)
    ensures multiset(MapNames(f, a)) == multiset(MapNames(f, b))
    decreases |a|
  {
    if a != [] {
      assert a[0] in multiset(b);
      var k :| 0 <= k < |b| && b[k] == a[0];
      var b' := b[..k] + b[k + 1..];
      PermuteRest(a, b, k);
      MapPermutes(f, a[1..], b');
      MapSplit(f, b, k);
      MapCons(f, a);
    }
  }

  /** Taking the first element out of `a` and a copy of it out of `b` keeps them
      permutations of each other. */
  lemma PermuteRest(a: seq<string>, b: seq<string>, k: nat)
    requires multiset(a) == multiset(b) && a != [] && k < |b| && b[k] == a[0]
    ensures multiset(a[1..]) == multiset(b[..k] + b[k + 1..])
  {
    RemoveAt(b, k);
    assert a == [a[0]] + a[1..];
    MultisetCancel(multiset(a[1..]), multiset(b[..k] + b[k + 1..]), a[0]);
  }

  lemma MapCons(f: string -> string, a: seq<string>)
    requires a != []
    ensures multiset(MapNames(f, a)) == multiset(MapNames(f, a[1..])) + multiset{f(a[0])}
  {
    assert MapNames(f, a) == [f(a[0])] + MapNames(f, a[1..]);
  }

  lemma MultisetCancel(m1: multiset<string>, m2: multiset<string>, x: string)
    requires m1 + multiset{x} == m2 + multiset{x}
    ensures m1 == m2
  {
    assert forall y :: m1[y] == (m1 + multiset{x})[y] - multiset{x}[y];
    assert forall y :: m2[y] == (m2 + multiset{x})[y] - multiset{x}[y];
  }

  lemma MapSplit(f: string -> string, b: seq<string>, k: nat)
    requires k < |b|
    ensures multiset(MapNames(f, b)) == multiset(MapNames(f, b[..k] + b[k + 1..])) + multiset{f(b[k])}
  {
    var nb := MapNames(f, b);
    RemoveAt(nb, k);
    assert MapNames(f, b[..k] + b[k + 1..]) == nb[..k] + nb[k + 1..];
  }

  /** The decision depends only on how often each name occurs. */
  lemma DecideOrderFree(a: seq<string>, b: seq<string>)
    requires multiset(a) == multiset(b)
    ensures Decide(a) == Decide(b)
  {
    assert forall x :: x in a <==> x in multiset(a);
    assert forall x :: x in b <==> x in multiset(b);
    assert Repeated(a) == Repeated(b);
  }

  /** The verdict does not depend on the order in which the files were read. */
  lemma CheckOrderFree(a: seq<string>, b: seq<string>)
    requires multiset(a) == multiset(b)
    ensures Check(a) == Check(b)
  {
    MapPermutes(NormalizeFileName, a, b);
    DecideOrderFree(Normalized(a), Normalized(b));
  }

  /** `dir 1` and `dir 1 [by some guy]` collide: a name and the same name with an
      annotation in brackets are reported, and only their common normalised name. */
  lemma AnnotatedCopyConflicts(f: string, g: string)
    requires f != [] && !IsSpace(f[|f| - 1])
    requires '.' !in f && '[' !in f && '(' !in f
    requires '.' !in g && ']' !in g
    ensures Check([f, f + " [" + g + "]"]) == Conflict({NormalizeFileName(f)})
  {
    AnnotationIgnored(f, g);
    var n := NormalizeFileName(f);
    PairMapped(NormalizeFileName, f, f + " [" + g + "]", n);
    DecideTwin(n);
  }

  lemma PairMapped(fn: string -> string, f: string, h: string, n: string)
    requires fn(f) == n && fn(h) == n
    ensures MapNames(fn, [f, h]) == [n, n]
  {
  }

  /** Two equal names conflict, on that name alone. */
  lemma DecideTwin(n: string)
    ensures Decide([n, n]) == Conflict({n})
  {
    var v := Decide([n, n]);
    assert !Distinct([n, n]);
    forall x
      ensures x in v.repeated <==> x == n
    {
      if x == n {
        assert [n, n][0] == x && [n, n][1] == x;
      }
    }
  }

  /** The validator of a batch: it collects the files the selector accepted and, once
      all are in, decides whether the batch may run. */
  class RepeatedNamesValidator {
    var files: seq<string>

    constructor()
      ensures files == []
    {
      files := [];
    }

    /** `readFile`: the file goes at the end of the list; nothing else changes. */
    method ReadFile(name: string)
      modifies this
      ensures files == old(files) + [name]
    {
      files := files + [name];
    }

    /** `validate`: the verdict on the files read so far; it reads them and changes
        nothing. */
    function Validate(): (v: Verdict)
      reads this
      ensures v.Accepted? <==> Distinct(Normalized(files))
    {
      Check(files)
    }
  }
}
