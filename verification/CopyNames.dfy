/** The "_copyN" names that copyPath and movePath try when a name is taken
    (desktop-shell/js/modules/vfs.js). */
module CopyNames {
  import opened Text
  import opened Paths

  /** Where the counter goes: before the last dot of a file name that has one, else at the end. */
  function Stem(name: string, isFile: bool): string
  {
    var parts := Split(name, '.');
    if |parts| > 1 && isFile then Join(parts[..|parts| - 1], '.') else name
  }

  function Suffix(name: string, isFile: bool): string
  {
    var parts := Split(name, '.');
    if |parts| > 1 && isFile then "." + parts[|parts| - 1] else ""
  }

  /** The n-th name tried; the name itself comes first. */
  function Candidate(name: string, isFile: bool, n: nat): string
  {
    if n == 0 then name
    else Stem(name, isFile) + "_copy" + Decimal(n) + Suffix(name, isFile)
  }

  /** The first counter from n on whose candidate is free. */
  function FreshCount(taken: set<string>, name: string, isFile: bool, n: nat): nat
    decreases |taken|
  {
    var c := Candidate(name, isFile, n);
    if c !in taken then n else FreshCount(taken - {c}, name, isFile, n + 1)
  }

  function FreshName(taken: set<string>, name: string, isFile: bool): string
  {
    Candidate(name, isFile, FreshCount(taken, name, isFile, 0))
  }

  lemma {:induction false} JoinSnoc(parts: seq<string>, last: string, sep: char)
    requires |parts| > 0
    ensures Join(parts + [last], sep) == Join(parts, sep) + [sep] + last
  {
    var all := parts + [last];
    assert all[1..] == parts[1..] + [last];
    if |parts| > 1 {
      JoinSnoc(parts[1..], last, sep);
    } else {
      assert all[1..] == [last];
    }
  }

  lemma StemAndSuffix(name: string, isFile: bool)
    ensures Stem(name, isFile) + Suffix(name, isFile) == name
  {
    var parts := Split(name, '.');
    if |parts| > 1 && isFile {
      var n := |parts| - 1;
      JoinSnoc(parts[..n], parts[n], '.');
      assert parts[..n] + [parts[n]] == parts;
      JoinSplit(name, '.');
      assert Join(parts[..n], '.') + "." + parts[n] == name;
    }
  }

  /** Different counters give different names. */
  lemma CandidatesDiffer(name: string, isFile: bool, m: nat, n: nat)
    requires m < n
    ensures Candidate(name, isFile, m) != Candidate(name, isFile, n)
  {
    var stem, suffix := Stem(name, isFile), Suffix(name, isFile);
    StemAndSuffix(name, isFile);
    var b := Candidate(name, isFile, n);
    assert |b| == |name| + 5 + |Decimal(n)|;
    if m > 0 {
      var a := Candidate(name, isFile, m);
      if a == b {
        assert |Decimal(m)| == |Decimal(n)|;
        var i := |stem| + 5;
        assert Decimal(m) == a[i..i + |Decimal(m)|];
        assert Decimal(n) == b[i..i + |Decimal(n)|];
        DecimalInjective(m, n);
      }
    }
  }

  /** The renaming loop ends after at most one try more than there are taken names, every earlier
      candidate is taken and the one chosen is free. */
  lemma {:induction false} FreshCountIsLeast(taken: set<string>, name: string, isFile: bool, n: nat)
    ensures n <= FreshCount(taken, name, isFile, n) <= n + |taken|
    ensures Candidate(name, isFile, FreshCount(taken, name, isFile, n)) !in taken
    ensures forall i :: n <= i < FreshCount(taken, name, isFile, n) ==> Candidate(name, isFile, i) in taken
    decreases |taken|
  {
    var c := Candidate(name, isFile, n);
    if c in taken {
      var rest := taken - {c};
      FreshCountIsLeast(rest, name, isFile, n + 1);
      CandidatesDiffer(name, isFile, n, FreshCount(rest, name, isFile, n + 1));
      assert |rest| == |taken| - 1;
      forall i | n <= i < FreshCount(taken, name, isFile, n) ensures Candidate(name, isFile, i) in taken {
        assert i > n ==> Candidate(name, isFile, i) in rest;
      }
    }
  }

  lemma CandidateAsBuilt(name: string, isFile: bool, n: nat)
    requires n > 0
    ensures var parts := Split(name, '.');
      Candidate(name, isFile, n) ==
        if |parts| > 1 && isFile
        then Join(parts[..|parts| - 1], '.') + "_copy" + Decimal(n) + "." + parts[|parts| - 1]
        else name + "_copy" + Decimal(n)
  {
    var parts := Split(name, '.');
    if |parts| > 1 && isFile {
      var front := Join(parts[..|parts| - 1], '.') + "_copy" + Decimal(n);
      assert front + ("." + parts[|parts| - 1]) == front + "." + parts[|parts| - 1];
    } else {
      var front := name + "_copy" + Decimal(n);
      assert front + "" == front;
    }
  }

  lemma SplitLast(a: string, b: string)
    requires '.' !in b
    ensures var parts := Split(a + "." + b, '.');
      |parts| > 1 && parts[|parts| - 1] == b && Join(parts[..|parts| - 1], '.') == a
  {
    var parts, front := Split(a + "." + b, '.'), Split(a, '.');
    SplitConcat(a, b, '.');
    SplitSegment(b, '.');
    JoinSplit(a, '.');
    assert a + "." + b == a + ['.'] + b && parts == front + [b];
    assert parts[..|parts| - 1] == front;
  }

  /** The n-th fallback name: the counter stands before the last dot of a file's name, and at the end of the name of a
      folder or of a file without a dot. */
  lemma FallbackNames(stem: string, extension: string, n: nat)
    requires n > 0 && '.' !in extension
    ensures Candidate(stem + "." + extension, true, n) == stem + "_copy" + Decimal(n) + "." + extension
    ensures Candidate(stem, false, n) == stem + "_copy" + Decimal(n)
    ensures '.' !in stem ==> Candidate(stem, true, n) == stem + "_copy" + Decimal(n)
  {
    SplitLast(stem, extension);
    CandidateAsBuilt(stem + "." + extension, true, n);
    CandidateAsBuilt(stem, false, n);
    CandidateAsBuilt(stem, true, n);
    if '.' !in stem { SplitSegment(stem, '.'); }
  }

  lemma FreshNameIsFree(taken: set<string>, name: string, isFile: bool)
    ensures FreshName(taken, name, isFile) !in taken
    ensures name !in taken ==> FreshName(taken, name, isFile) == name
  {
    FreshCountIsLeast(taken, name, isFile, 0);
  }

  /** A fallback name is longer than the name, so it does not equal it up to case either. */
  lemma FreshNameDiffers(taken: set<string>, name: string, isFile: bool)
    requires name in taken
    ensures |FreshName(taken, name, isFile)| > |name| && Lower(FreshName(taken, name, isFile)) != Lower(name)
  {
    FreshCountIsLeast(taken, name, isFile, 0);
    StemAndSuffix(name, isFile);
    assert |FreshName(taken, name, isFile)| > |name|;
  }

  /** Candidates of a good name are good names. */
  lemma FreshNameIsGood(taken: set<string>, name: string, isFile: bool)
    requires GoodName(name)
    ensures GoodName(FreshName(taken, name, isFile))
  {
    var n := FreshCount(taken, name, isFile, 0);
    if n > 0 {
      StemAndSuffix(name, isFile);
      var stem, suffix := Stem(name, isFile), Suffix(name, isFile);
      assert forall c :: c in stem ==> c in name;
      assert forall c :: c in suffix ==> c in name;
      assert |FreshName(taken, name, isFile)| > 5;
    }
  }

  /** The search loop of copyPath and movePath. */
  method PickName(keys: seq<string>, name: string, isFile: bool) returns (finalName: string)
    ensures finalName == FreshName(SetOf(keys), name, isFile)
    ensures finalName !in keys
  {
    var counter := 0;
    finalName := name;
    ghost var left := TriesLeft(keys, name, isFile, counter);
    while finalName in keys
      invariant finalName == Candidate(name, isFile, counter)
      invariant finalName in keys <==> left > 0
      invariant left == 0 ==> finalName == FreshName(SetOf(keys), name, isFile)
      invariant left == FreshCount(SetOf(keys), name, isFile, 0) - counter
      decreases left
    {
      counter := counter + 1;
      finalName := CopyName(name, isFile, counter);
      left := TriesLeft(keys, name, isFile, counter);
    }
  }

  /** Up to the counter of the fresh name, a candidate is taken exactly when there are tries left. */
  lemma TriesLeft(keys: seq<string>, name: string, isFile: bool, n: nat) returns (left: nat)
    requires n <= FreshCount(SetOf(keys), name, isFile, 0)
    ensures left == FreshCount(SetOf(keys), name, isFile, 0) - n
    ensures Candidate(name, isFile, n) in keys <==> left > 0
    ensures left == 0 ==> Candidate(name, isFile, n) == FreshName(SetOf(keys), name, isFile)
  {
    left := FreshCount(SetOf(keys), name, isFile, 0) - n;
    FreshCountIsLeast(SetOf(keys), name, isFile, 0);
    assert Candidate(name, isFile, n) in keys <==> Candidate(name, isFile, n) in SetOf(keys);
  }

  /** The name tried next: the counter goes before the extension of a file. */
  method CopyName(name: string, isFile: bool, counter: nat) returns (finalName: string)
    requires counter > 0
    ensures finalName == Candidate(name, isFile, counter)
  {
    CandidateAsBuilt(name, isFile, counter);
    var parts := Split(name, '.');
    if |parts| > 1 && isFile {
      var ext := parts[|parts| - 1];
      finalName := Join(parts[..|parts| - 1], '.') + "_copy" + Decimal(counter) + "." + ext;
    } else {
      finalName := name + "_copy" + Decimal(counter);
    }
  }
}
