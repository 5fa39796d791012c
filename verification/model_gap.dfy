/** The gap between required and available models, and the report
    `checkMissingModels` prints about it. */
module ModelGap {
  import opened Seqs

  /** `[model for model in requiredModels if model not in availableModels]`. */
  function Missing(required: seq<string>, available: seq<string>): (r: seq<string>)
    ensures IsSubseq(r, required)
    ensures forall x :: x in r <==> x in required && x !in available
    ensures forall x :: multiset(r)[x] == if x in available then 0 else multiset(required)[x]
    decreases |required|
  {
    if |required| == 0 then
      []
    else
      var h := required[0];
      var rest := Missing(required[1..], available);
      assert required == [h] + required[1..];
      if h in available then
        assert IsSubseq(rest, required);
        rest
      else
        assert ([h] + rest)[1..] == rest;
        [h] + rest
  }

  /** The filter is determined by its result's properties: the subsequence of
      `required` that keeps every copy of each unavailable id and nothing else
      is `Missing(required, available)`. */
  lemma {:induction false} MissingUnique(required: seq<string>, available: seq<string>, r: seq<string>)
    requires IsSubseq(r, required)
    requires forall x :: multiset(r)[x] == if x in available then 0 else multiset(required)[x]
    ensures r == Missing(required, available)
    decreases |required|
  {
    if |required| == 0 {
    } else {
      var h, t := required[0], required[1..];
      assert required == [h] + t;
      assert forall x :: multiset(required)[x] == multiset(t)[x] + (if x == h then 1 else 0);
      if h in available {
        // r holds no copy of h, so it is a subsequence of the tail.
        assert multiset(r)[h] == 0;
        assert IsSubseq(r, t) by {
          if |r| > 0 { assert r[0] in multiset(r); }
        }
        MissingUnique(t, available, r);
      } else {
        assert multiset(r)[h] == multiset(required)[h] >= 1;
        if IsSubseq(r, t) {
          SubseqMultiset(r, t);
          assert false;
        }
        var r' := r[1..];
        assert r == [h] + r';
        assert forall x :: multiset(r)[x] == multiset(r')[x] + (if x == h then 1 else 0);
        MissingUnique(t, available, r');
      }
    }
  }

  /** Filtering distributes over concatenation of the required list. */
  lemma {:induction false} MissingConcat(a: seq<string>, b: seq<string>, available: seq<string>)
    ensures Missing(a + b, available) == Missing(a, available) + Missing(b, available)
    decreases |a|
  {
    if |a| > 0 {
      assert (a + b)[1..] == a[1..] + b;
      MissingConcat(a[1..], b, available);
    } else {
      assert a + b == b;
    }
  }

  /** Only membership in `available` matters, so its order and any
      duplicates in it do not change the result. */
  lemma {:induction false} MissingDependsOnlyOnMembership(required: seq<string>, av1: seq<string>, av2: seq<string>)
    requires forall x :: x in av1 <==> x in av2
    ensures Missing(required, av1) == Missing(required, av2)
    decreases |required|
  {
    if |required| > 0 {
      MissingDependsOnlyOnMembership(required[1..], av1, av2);
    }
  }

  /** Nothing is missing exactly when every required id is available. */
  lemma NothingMissingIff(required: seq<string>, available: seq<string>)
    ensures Missing(required, available) == [] <==> forall x :: x in required ==> x in available
  {
    if Missing(required, available) != [] {
      assert Missing(required, available)[0] in Missing(required, available);
    }
  }

  /** First line printed when some required model is missing. */
  const MissingHeader: string := "\nMissing models:"

  /** The single line printed when nothing is missing. */
  const AllPresentLine: string := "\nAccess to all required models."

  /** `f"- {model}"`, the bullet line for one model id. */
  function Bullet(id: string): (line: string)
    ensures |line| == |id| + 2 && line[..2] == "- " && line[2..] == id
  {
    "- " + id
  }

  /** One bullet line per id, in order. */
  function Bullets(ids: seq<string>): (lines: seq<string>)
    ensures |lines| == |ids|
    ensures forall k :: 0 <= k < |ids| ==> lines[k] == Bullet(ids[k])
  {
    if |ids| == 0 then [] else [Bullet(ids[0])] + Bullets(ids[1..])
  }

  /** The lines `checkMissingModels` prints for the missing list `missing`,
      one element per `print` call. */
  function Report(missing: seq<string>): (lines: seq<string>)
    ensures lines == [AllPresentLine] <==> missing == []
    ensures missing != [] ==> |lines| == |missing| + 1 && lines[0] == MissingHeader
    ensures forall k :: 0 <= k < |missing| ==> lines[k + 1] == Bullet(missing[k])
  {
    if |missing| > 0 then [MissingHeader] + Bullets(missing)
    else [AllPresentLine]
  }

  /** The id on a bullet line; any other line is kept whole. */
  function Unbullet(line: string): (id: string)
    ensures |line| >= 2 && line[..2] == "- " ==> line == Bullet(id)
  {
    if |line| >= 2 && line[..2] == "- " then line[2..] else line
  }

  /** What a reader of the report takes to be missing: the ids on the bullet
      lines under the header, or nothing when the header is absent. */
  function ReadReport(lines: seq<string>): (ids: seq<string>)
    ensures lines == [] || lines[0] != MissingHeader ==> ids == []
    ensures lines != [] && lines[0] == MissingHeader ==> |ids| == |lines| - 1
  {
    if |lines| > 0 && lines[0] == MissingHeader then
      seq(|lines| - 1, k requires 0 <= k < |lines| - 1 => Unbullet(lines[k + 1]))
    else
      []
  }

  /** The report loses nothing: the missing list can be read back from it. */
  lemma ReportRoundTrip(missing: seq<string>)
    ensures ReadReport(Report(missing)) == missing
  {
    var lines := Report(missing);
    assert AllPresentLine[1] != MissingHeader[1];
    if missing != [] {
      forall k | 0 <= k < |missing|
        ensures Unbullet(lines[k + 1]) == missing[k]
      {
        assert lines[k + 1] == "- " + missing[k];
        assert lines[k + 1][..2] == "- ";
      }
    }
  }

  /** The decision of `checkMissingModels`: the confirmation line is printed
      exactly when every required id is available; otherwise the header is
      followed by one bullet per missing id, in required-list order. */
  lemma ReportDecision(required: seq<string>, available: seq<string>)
    ensures (Report(Missing(required, available)) == [AllPresentLine]) <==> (forall x :: x in required ==> x in available)
    ensures (exists x :: x in required && x !in available) ==>
              && Report(Missing(required, available))[0] == MissingHeader
              && ReadReport(Report(Missing(required, available))) == Missing(required, available)
  {
    NothingMissingIff(required, available);
    ReportRoundTrip(Missing(required, available));
  }
}
