/** get_unique_filename: the name under which an upload is stored in the
    input directory, found by trying "base_1.ext", "base_2.ext", ... after
    the original name. */
module UniqueNames {
  import opened Decimal
  import opened Paths

  /** The k-th name the loop tries: the original name first, then
      base + "_" + k + ext with base and ext split as os.path.splitext does. */
  function Candidate(original: string, k: nat): string {
    if k == 0 then original
    else SplitExt(original).0 + "_" + NatToString(k) + SplitExt(original).1
  }

  /** k is the first index whose candidate is free. */
  ghost predicate FirstFree(existing: set<string>, original: string, k: nat) {
    Candidate(original, k) !in existing &&
    forall j :: 0 <= j < k ==> Candidate(original, j) in existing
  }

  /** name is what get_unique_filename returns for original. */
  ghost predicate IsUniqueName(existing: set<string>, original: string, name: string) {
    exists k :: FirstFree(existing, original, k) && name == Candidate(original, k)
  }

  /** The loop never tries the same name twice. */
  lemma CandidateInjective(original: string, i: nat, j: nat)
    ensures Candidate(original, i) == Candidate(original, j) ==> i == j
  {
    var base, ext := SplitExt(original).0, SplitExt(original).1;
    if 0 < i && 0 < j && Candidate(original, i) == Candidate(original, j) {
      var p := base + "_";
      var si, sj := NatToString(i), NatToString(j);
      assert Candidate(original, i) == p + si + ext;
      assert Candidate(original, j) == p + sj + ext;
      assert |si| == |sj|;
      assert si == (p + si + ext)[|p|..|p| + |si|];
      assert sj == (p + sj + ext)[|p|..|p| + |sj|];
      NatToStringInjective(i, j);
    }
    assert i > 0 ==> |Candidate(original, i)| > |original|;
    assert j > 0 ==> |Candidate(original, j)| > |original|;
  }

  /** The candidates tried before index k. */
  ghost function Tried(original: string, k: nat): set<string> {
    set j | 0 <= j < k :: Candidate(original, j)
  }

  /** The k candidates tried before index k are k distinct names. */
  lemma {:induction false} TriedSize(original: string, k: nat)
    ensures |Tried(original, k)| == k
  {
    if k > 0 {
      TriedSize(original, k - 1);
      TriedStep(original, k);
    }
  }

  /** Trying index k - 1 adds one name not tried before. */
  lemma TriedStep(original: string, k: nat)
    requires k > 0
    ensures Tried(original, k) == Tried(original, k - 1) + {Candidate(original, k - 1)}
    ensures Candidate(original, k - 1) !in Tried(original, k - 1)
  {
    var c := Candidate(original, k - 1);
    if c in Tried(original, k - 1) {
      var j :| 0 <= j < k - 1 && Candidate(original, j) == c;
      CandidateInjective(original, j, k - 1);
    }
  }

  lemma SubsetCardinality(a: set<string>, b: set<string>)
    requires a <= b
    ensures |a| <= |b|
  {
    assert b == a + (b - a);
  }

  /** The loop stops after at most |existing| collisions: k taken
      candidates are k distinct names of the directory. */
  lemma FirstFreeBound(existing: set<string>, original: string, k: nat)
    requires forall j :: 0 <= j < k ==> Candidate(original, j) in existing
    ensures k <= |existing|
  {
    var t := Tried(original, k);
    assert t <= existing;
    TriedSize(original, k);
    SubsetCardinality(t, existing);
  }

  /** get_unique_filename against the finite set of names already in the
      input directory: a free name, the original one when that is free, and
      otherwise the first free candidate. */
  method UniqueFilename(existing: set<string>, original: string) returns (name: string)
    ensures name !in existing
    ensures original !in existing ==> name == original
    ensures IsUniqueName(existing, original, name)
  {
    var base, ext := SplitExt(original).0, SplitExt(original).1;
    var counter: nat := 1;
    name := original;
    while name in existing
      invariant counter >= 1
      invariant name == Candidate(original, counter - 1)
      invariant forall j :: 0 <= j < counter - 1 ==> Candidate(original, j) in existing
      decreases |existing| - (counter - 1)
    {
      FirstFreeBound(existing, original, counter);
      name := base + "_" + NatToString(counter) + ext;
      counter := counter + 1;
    }
    assert FirstFree(existing, original, counter - 1);
  }

  /** The names given to the files before the i-th one. */
  ghost function Prior(names: seq<string>, i: nat): set<string>
    requires i <= |names|
  {
    set j | 0 <= j < i :: names[j]
  }

  lemma PriorAppend(names: seq<string>, name: string, i: nat)
    requires i <= |names|
    ensures Prior(names + [name], i) == Prior(names, i)
    ensures Prior(names + [name], |names| + 1) == Prior(names, |names|) + {name}
  {
    var n2 := names + [name];
    assert forall j :: 0 <= j < |names| ==> n2[j] == names[j];
    assert n2[|names|] == name;
  }

  /** The names an upload request assigns, one per file in order: each is the
      unique name of its file against the directory as it stands once the
      earlier files of the request have been saved. */
  ghost predicate Assigned(existing: set<string>, originals: seq<string>, names: seq<string>) {
    |names| == |originals| &&
    forall i :: 0 <= i < |names| ==> IsUniqueName(existing + Prior(names, i), originals[i], names[i])
  }

  /** Every file of a request gets a name of its own, and none of them
      overwrites a file that was already there. */
  lemma AssignedFresh(existing: set<string>, originals: seq<string>, names: seq<string>)
    requires Assigned(existing, originals, names)
    ensures forall i :: 0 <= i < |names| ==> names[i] !in existing
    ensures forall i, j :: 0 <= i < j < |names| ==> names[i] != names[j]
  {
    forall j | 0 <= j < |names| ensures names[j] !in existing + Prior(names, j) {
      var k :| FirstFree(existing + Prior(names, j), originals[j], k) && names[j] == Candidate(originals[j], k);
    }
    forall i, j | 0 <= i < j < |names| ensures names[i] != names[j] {
      assert names[i] in Prior(names, j);
    }
  }

  /** Saving one more file of the request under its unique name extends
      the assignment by that name. */
  lemma AssignedAppend(existing: set<string>, originals: seq<string>, names: seq<string>, original: string, name: string)
    requires Assigned(existing, originals, names)
    requires IsUniqueName(existing + Prior(names, |names|), original, name)
    ensures Assigned(existing, originals + [original], names + [name])
    ensures Prior(names + [name], |names| + 1) == Prior(names, |names|) + {name}
  {
    var o2, n2 := originals + [original], names + [name];
    forall i | 0 <= i < |n2| ensures IsUniqueName(existing + Prior(n2, i), o2[i], n2[i]) {
      PriorAppend(names, name, i);
    }
    PriorAppend(names, name, |names|);
  }
}
