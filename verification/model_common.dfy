/** The label list the token classifier is configured with
    (`get_labels_list`). The configured labels are a parameter here. */
module ModelCommon {
  import Jsonl

  /** The label that stands for "no entity". */
  predicate IsOutsideLabel(l: string) {
    Jsonl.IsChar(l, 'O')
  }

  /** What one configured label contributes: itself, or its `B-` and `I-`
      forms when BIO labels are asked for and it is not `O`. */
  function Expand(l: string, withBio: bool): seq<string> {
    if IsOutsideLabel(l) || !withBio then [l] else [Jsonl.Bio('B', l), Jsonl.Bio('I', l)]
  }

  /** The number of labels other than `O` among the first `k`. */
  function CountEntityLabels(labels: seq<string>, k: nat): (n: nat)
    requires k <= |labels|
    ensures n <= k
  {
    if k == 0 then 0
    else CountEntityLabels(labels, k - 1) + (if IsOutsideLabel(labels[k - 1]) then 0 else 1)
  }

  /** The list `get_labels_list` has built once its loop has seen the first
      `k` labels: each label's contribution appended in turn. */
  function LabelsUpTo(labels: seq<string>, k: nat, withBio: bool): (r: seq<string>)
    requires k <= |labels|
    ensures !withBio ==> r == labels[..k]
    ensures withBio ==> |r| == k + CountEntityLabels(labels, k)
  {
    if k == 0 then []
    else
      assert labels[..k] == labels[..k - 1] + [labels[k - 1]];
      LabelsUpTo(labels, k - 1, withBio) + Expand(labels[k - 1], withBio)
  }

  /** `get_labels_list`. Without BIO the labels come back as they are; with
      BIO every label other than `O` counts twice. */
  function LabelsList(labels: seq<string>, withBio: bool): (r: seq<string>)
    ensures !withBio ==> r == labels
    ensures withBio ==> |r| == |labels| + CountEntityLabels(labels, |labels|)
  {
    LabelsUpTo(labels, |labels|, withBio)
  }

  /** What the loop has built after `j` labels is a prefix of what it has
      built after `k >= j`. */
  lemma {:induction false} LabelsPrefix(labels: seq<string>, withBio: bool, j: nat, k: nat)
    requires j <= k <= |labels|
    ensures |LabelsUpTo(labels, j, withBio)| <= |LabelsUpTo(labels, k, withBio)|
    ensures LabelsUpTo(labels, k, withBio)[..|LabelsUpTo(labels, j, withBio)|] == LabelsUpTo(labels, j, withBio)
  {
    if j < k {
      LabelsPrefix(labels, withBio, j, k - 1);
      PrefixAppend(LabelsUpTo(labels, k - 1, withBio), Expand(labels[k - 1], withBio), LabelsUpTo(labels, j, withBio));
    }
  }

  /** A prefix of a sequence is a prefix of any extension of it. */
  lemma PrefixAppend(a: seq<string>, b: seq<string>, p: seq<string>)
    requires |p| <= |a| && a[..|p|] == p
    ensures |p| <= |a + b| && (a + b)[..|p|] == p
  {
    assert (a + b)[..|p|] == a[..|p|];
  }

  /** Label `i` lands right after the contributions of the labels before it:
      `O` (or any label, without BIO) is copied verbatim, and any other label
      `l` becomes `B-l` immediately followed by `I-l`. */
  lemma LabelAt(labels: seq<string>, withBio: bool, i: nat)
    requires i < |labels|
    ensures var p := |LabelsUpTo(labels, i, withBio)|;
      && p + |Expand(labels[i], withBio)| <= |LabelsList(labels, withBio)|
      && (withBio ==> p == i + CountEntityLabels(labels, i))
      && ((IsOutsideLabel(labels[i]) || !withBio) ==> LabelsList(labels, withBio)[p] == labels[i])
      && ((!IsOutsideLabel(labels[i]) && withBio) ==>
            && LabelsList(labels, withBio)[p] == Jsonl.Bio('B', labels[i])
            && LabelsList(labels, withBio)[p + 1] == Jsonl.Bio('I', labels[i]))
  {
    var before := LabelsUpTo(labels, i, withBio);
    var ex := Expand(labels[i], withBio);
    LabelsPrefix(labels, withBio, i + 1, |labels|);
    ExpandAt(LabelsList(labels, withBio), before, ex, 0);
    if |ex| == 2 {
      ExpandAt(LabelsList(labels, withBio), before, ex, 1);
    }
  }

  /** Element `m` of the contribution appended to `before` sits at
      `|before| + m` of any extension. */
  lemma ExpandAt(whole: seq<string>, before: seq<string>, ex: seq<string>, m: nat)
    requires |before + ex| <= |whole| && whole[..|before + ex|] == before + ex && m < |ex|
    ensures whole[|before| + m] == ex[m]
  {
    assert whole[..|before + ex|][|before| + m] == (before + ex)[|before| + m];
  }
}
