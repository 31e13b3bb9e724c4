/**
 Start-up decisions of the camera test script: the name of this run's
 coordinate file and the camera to open.

 The directory the coordinate files live in is modelled by the set of names
 for which `os.path.exists` holds there; the existence test on a joined path
 becomes membership of the name in that set. Camera enumeration is not
 modelled: the list it returns is an input.
 */
module CameraTest {
  import opened DecimalFormat

  datatype Option<T> = None | Some(value: T)

  const Prefix: string := "target_coordinates_"
  const Suffix: string := ".txt"

  /** The run-file name: the fixed prefix, the index zero-padded to three digits, and the text-file extension. */
  function FileName(index: nat): string {
    Prefix + Pad3(index) + Suffix
  }

  /** Recovers the index from a coordinate-file name, if the name has that shape. */
  function ParseFileName(name: string): Option<nat> {
    if |name| >= |Prefix| + |Suffix| && name[..|Prefix|] == Prefix && name[|name| - |Suffix|..] == Suffix
       && AllDigits(name[|Prefix|..|name| - |Suffix|])
    then Some(ParseDecimal(name[|Prefix|..|name| - |Suffix|]))
    else None
  }

  /** Every generated name reads back as its index. */
  lemma FileNameRoundTrip(index: nat)
    ensures ParseFileName(FileName(index)) == Some(index)
  {
    var name := FileName(index);
    assert name[..|Prefix|] == Prefix;
    assert name[|name| - |Suffix|..] == Suffix;
    assert name[|Prefix|..|name| - |Suffix|] == Pad3(index);
    Pad3RoundTrip(index);
  }

  /** Distinct indices give distinct names. */
  lemma FileNameInjective(i: nat, j: nat)
    requires FileName(i) == FileName(j)
    ensures i == j
  {
    FileNameRoundTrip(i);
    FileNameRoundTrip(j);
  }

  /** For indices up to 999 the name has exactly three digits; the name is 26 characters long. */
  lemma FileNameLength(index: nat)
    requires index <= 999
    ensures |FileName(index)| == 26
  {
    Pad3Shape(index);
  }

  /** The names of the indices 1 to n. */
  function NamesUpTo(n: nat): set<string> {
    if n == 0 then {} else NamesUpTo(n - 1) + {FileName(n)}
  }

  lemma {:induction false} NamesUpToMembers(n: nat, k: nat)
    ensures FileName(k) in NamesUpTo(n) <==> 1 <= k <= n
  {
    if n > 0 {
      NamesUpToMembers(n - 1, k);
      if FileName(k) == FileName(n) {
        FileNameInjective(k, n);
      }
    }
  }

  lemma {:induction false} NamesUpToSize(n: nat)
    ensures |NamesUpTo(n)| == n
  {
    if n > 0 {
      NamesUpToSize(n - 1);
      NamesUpToMembers(n - 1, n);
    }
  }

  /** n distinct existing names were probed, so the directory has at least n entries. */
  lemma ProbedBound(existing: set<string>, n: nat)
    requires NamesUpTo(n) <= existing
    ensures n <= |existing|
  {
    NamesUpToSize(n);
    SubsetSize(NamesUpTo(n), existing);
  }

  lemma SubsetSize(a: set<string>, b: set<string>)
    requires a <= b
    ensures |a| <= |b|
  {
    assert b == a + (b - a);
  }

  /** One more existing name probed: the probed names still exist, and there are at least `index` entries. */
  lemma ProbeStep(existing: set<string>, index: nat)
    requires index >= 1 && NamesUpTo(index - 1) <= existing && FileName(index) in existing
    ensures NamesUpTo(index) <= existing && index <= |existing|
  {
    ProbedBound(existing, index);
  }

  lemma ProbedAllExist(existing: set<string>, n: nat)
    requires NamesUpTo(n) <= existing
    ensures forall j :: 1 <= j <= n ==> FileName(j) in existing
  {
    forall j | 1 <= j <= n ensures FileName(j) in existing {
      NamesUpToMembers(n, j);
    }
  }

  /**
   `get_new_file_path`: probes index 1, 2, ... and returns the first index whose
   name is not taken, with that name. The loop ends for every finite directory:
   each probed name is a distinct existing entry, so at most |existing| + 1
   indices are probed.
   */
  method GetNewFilePath(existing: set<string>) returns (index: nat, name: string)
    ensures index >= 1 && name == FileName(index)
    ensures name !in existing
    ensures forall j :: 1 <= j < index ==> FileName(j) in existing
    ensures index <= |existing| + 1
  {
    index := 1;
    while true
      invariant 1 <= index <= |existing| + 1
      invariant NamesUpTo(index - 1) <= existing
      decreases |existing| + 1 - index
    {
      name := FileName(index);
      if name !in existing {
        ProbedAllExist(existing, index - 1);
        return;
      }
      ProbeStep(existing, index);
      index := index + 1;
    }
  }

  /** The least free index determines the name: two searches over the same directory agree. */
  lemma FirstFreeIsUnique(existing: set<string>, i: nat, j: nat)
    requires i >= 1 && FileName(i) !in existing && forall k :: 1 <= k < i ==> FileName(k) in existing
    requires j >= 1 && FileName(j) !in existing && forall k :: 1 <= k < j ==> FileName(k) in existing
    ensures i == j
  {
  }

  /**
   The camera the script opens: index 1 when it was listed, otherwise the first
   listed index; nothing when the list is empty (the script reports that and returns).
   */
  function ChooseCamera(available: seq<int>): (choice: Option<int>)
    ensures choice == None <==> available == []
    ensures choice.Some? ==> choice.value in available
    ensures choice.Some? && 1 in available ==> choice.value == 1
    ensures choice.Some? && 1 !in available ==> choice.value == available[0]
  {
    if available == [] then None
    else if 1 in available then Some(1)
    else Some(available[0])
  }

  /** The choice does not depend on the order of the list as long as 1 is in it. */
  lemma ChooseCameraPrefersOne(available: seq<int>, other: seq<int>)
    requires 1 in available && 1 in other
    ensures ChooseCamera(available) == ChooseCamera(other) == Some(1)
  {
  }

  /** Without index 1 the choice is the head of the list, whatever follows it. */
  lemma ChooseCameraFirstListed(first: int, rest: seq<int>)
    requires first != 1 && 1 !in rest
    ensures ChooseCamera([first] + rest) == Some(first)
  {
  }
}
