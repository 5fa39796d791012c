/** The required-model list of `checkMissingModels`: read from
    "oaimodellist.txt" when that file exists, else the built-in list. */
module RequiredModels {
  import opened Wrappers
  import opened Text
  import opened Seqs

  /** `HARDCODED_MODELS`, in the script's order. */
  const HardcodedModels: seq<string> := [
    "text-davinci-002",
    "code-davinci-002",
    "text-davinci-003",
    "gpt-3.5-turbo-0301",
    "gpt-3.5-turbo",
    "gpt-4",
    "gpt-4-0314",
    "gpt-4-32k",
    "gpt-4-32k-0314"
  ]

  /** Every line of `lines` passed through `strip()`, blank or not. */
  function StripEach(lines: seq<string>): (r: seq<string>)
    ensures |r| == |lines|
    ensures forall k :: 0 <= k < |lines| ==> r[k] == Strip(lines[k])
  {
    if |lines| == 0 then [] else [Strip(lines[0])] + StripEach(lines[1..])
  }

  /** `[line.strip() for line in file if line.strip()]`, where `lines` are the
      file's lines as Python's text-mode iteration yields them. */
  function ParseLines(lines: seq<string>): (r: seq<string>)
    ensures |r| <= |lines|
    ensures forall k :: 0 <= k < |r| ==> r[k] != "" && Trimmed(r[k])
    decreases |lines|
  {
    if |lines| == 0 then
      []
    else
      var t := Strip(lines[0]);
      if t == "" then ParseLines(lines[1..]) else [t] + ParseLines(lines[1..])
  }

  /** The entries are the stripped lines in file order: a subsequence of
      the stripped lines, with only blank lines dropped. */
  lemma {:induction false} ParseLinesKeepsOrder(lines: seq<string>)
    ensures IsSubseq(ParseLines(lines), StripEach(lines))
    decreases |lines|
  {
    if |lines| > 0 {
      var t, rest := Strip(lines[0]), ParseLines(lines[1..]);
      ParseLinesKeepsOrder(lines[1..]);
      assert StripEach(lines) == [t] + StripEach(lines[1..]);
      assert StripEach(lines)[1..] == StripEach(lines[1..]);
      if t != "" {
        assert ([t] + rest)[1..] == rest;
      }
    }
  }

  /** An id is an entry exactly when some non-blank line strips to it. */
  lemma {:induction false} ParseLinesMembers(lines: seq<string>, e: string)
    ensures e in ParseLines(lines) <==> exists k :: 0 <= k < |lines| && !AllSpace(lines[k]) && Strip(lines[k]) == e
    decreases |lines|
  {
    if |lines| > 0 {
      ParseLinesMembers(lines[1..], e);
      assert forall k :: 1 <= k < |lines| ==> lines[1..][k - 1] == lines[k];
      if k :| 0 <= k < |lines| && !AllSpace(lines[k]) && Strip(lines[k]) == e {
        if k > 0 {
          assert lines[1..][k - 1] == lines[k];
        }
      }
    }
  }

  /** `requiredModels` of `checkMissingModels`: `file` is `None` when
      "oaimodellist.txt" is not a regular file, else its lines. */
  function LoadRequired(file: Option<seq<string>>): (r: seq<string>)
    ensures file.Some? ==> |r| <= |file.value|
    ensures forall k :: 0 <= k < |r| ==> r[k] != "" && Trimmed(r[k])
  {
    match file
    case None => HardcodedModels
    case Some(lines) => ParseLines(lines)
  }

  /** Reading the file in two pieces and joining the results gives the same
      list: entries keep file order and each line contributes on its own. */
  lemma {:induction false} ParseLinesConcat(a: seq<string>, b: seq<string>)
    ensures ParseLines(a + b) == ParseLines(a) + ParseLines(b)
    decreases |a|
  {
    if |a| > 0 {
      assert (a + b)[1..] == a[1..] + b;
      ParseLinesConcat(a[1..], b);
    } else {
      assert a + b == b;
    }
  }

  /** One line contributes its stripped text, or nothing when it is blank. */
  lemma ParseOneLine(l: string)
    ensures ParseLines([l]) == if AllSpace(l) then [] else [Strip(l)]
  {
    assert [l][1..] == [];
  }

  /** A present file whose lines are all blank yields an empty list, and
      only such a file does: there is no fallback to the built-in list. */
  lemma {:induction false} BlankFileGivesEmptyList(lines: seq<string>)
    ensures ParseLines(lines) == [] <==> forall k :: 0 <= k < |lines| ==> AllSpace(lines[k])
    ensures (forall k :: 0 <= k < |lines| ==> AllSpace(lines[k])) ==> LoadRequired(Some(lines)) == []
    decreases |lines|
  {
    if |lines| > 0 {
      BlankFileGivesEmptyList(lines[1..]);
      assert forall k :: 1 <= k < |lines| ==> lines[1..][k - 1] == lines[k];
    }
  }

  /** The built-in list: nine distinct, non-empty, trimmed ids. */
  lemma HardcodedModelsShape()
    ensures |HardcodedModels| == 9
    ensures HardcodedModels[0] == "text-davinci-002" && HardcodedModels[8] == "gpt-4-32k-0314"
    ensures forall i, j :: 0 <= i < j < |HardcodedModels| ==> HardcodedModels[i] != HardcodedModels[j]
    ensures forall k :: 0 <= k < |HardcodedModels| ==> HardcodedModels[k] != "" && Trimmed(HardcodedModels[k])
  {
  }

  /** An absent file gives exactly the built-in list. */
  lemma AbsentFileFallsBack()
    ensures LoadRequired(None) == HardcodedModels
    ensures |LoadRequired(None)| == 9
  {
  }

  /** A line made of an id followed by whitespace (its newline) parses to the id. */
  lemma ParsePaddedLine(id: string, pad: string)
    requires id != "" && Trimmed(id) && AllSpace(pad)
    ensures ParseLines([id + pad]) == [id]
  {
    var l := id + pad;
    assert l[0..|id|] == id && l[..0] == [] && l[|id|..] == pad;
    assert StripsAt(l, 0, |id|);
    StripsToUnique(l, Strip(l), id);
    ParseOneLine(l);
  }

  /** A file of two ids, each followed by its line terminator, yields the two
      ids in file order. */
  lemma TwoLineFile(a: string, b: string, nl: string)
    requires a != "" && Trimmed(a) && b != "" && Trimmed(b) && AllSpace(nl)
    ensures ParseLines([a + nl, b + nl]) == [a, b]
  {
    ParsePaddedLine(a, nl);
    ParsePaddedLine(b, nl);
    ParseLinesConcat([a + nl], [b + nl]);
    assert [a + nl] + [b + nl] == [a + nl, b + nl];
  }
}
