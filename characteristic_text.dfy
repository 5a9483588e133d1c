/** Display helpers on characteristics: the label list of a property set and the
    user-description descriptor's text. */
module CharacteristicText {
  import opened Gatt
  import opened Text

  /** The flags the formatter looks at, in the order their labels appear. */
  const LabelledFlags: seq<Property> := [Read, WriteWithoutResponse, Write, Notify]

  const ReadLabel := "read"
  const WriteLabel := "write"
  const WriteWithoutResponseLabel := "write(without response)"
  const NotifyLabel := "notify"
  const NoneLabel := "(none)"
  const Separator := ", "

  /** The labels of `p`, stated flag by flag. Both write flags consult the set, not the flag at
      hand, so with write-without-response present the write flag is labelled as it too. */
  function Labels(p: set<Property>): seq<string> {
    (if Read in p then [ReadLabel] else [])
    + (if WriteWithoutResponse in p then [WriteWithoutResponseLabel] else [])
    + (if Write in p then [if WriteWithoutResponse in p then WriteWithoutResponseLabel else WriteLabel] else [])
    + (if Notify in p then [NotifyLabel] else [])
  }

  /** The text shown for a property set. */
  function Describe(p: set<Property>): string {
    if Labels(p) == [] then NoneLabel else Join(Labels(p), Separator)
  }

  /** What one step of the formatter's loop appends for `flag`. */
  function StepLabel(p: set<Property>, flag: Property): seq<string> {
    if flag !in p then []
    else if flag == Read then [ReadLabel]
    else if flag == WriteWithoutResponse || flag == Write then
      (if WriteWithoutResponse in p then [WriteWithoutResponseLabel] else [WriteLabel])
    else if flag == Notify then [NotifyLabel]
    else []
  }

  /** What the loop has appended after visiting `flags` in order. */
  function StepLabels(p: set<Property>, flags: seq<Property>): seq<string> {
    if flags == [] then [] else StepLabels(p, flags[..|flags| - 1]) + StepLabel(p, flags[|flags| - 1])
  }

  /** The loop over the four labelled flags yields exactly `Labels`. */
  lemma StepLabelsAreLabels(p: set<Property>)
    ensures StepLabels(p, LabelledFlags) == Labels(p)
  {
    var f1, f2, f3 := [Read], [Read, WriteWithoutResponse], [Read, WriteWithoutResponse, Write];
    assert f1[..0] == [] && f2[..1] == f1 && f3[..2] == f2 && LabelledFlags[..3] == f3;
    assert StepLabels(p, f1) == StepLabel(p, Read);
    assert StepLabels(p, f2) == StepLabels(p, f1) + StepLabel(p, WriteWithoutResponse);
    assert StepLabels(p, f3) == StepLabels(p, f2) + StepLabel(p, Write);
    assert StepLabels(p, LabelledFlags) == StepLabels(p, f3) + StepLabel(p, Notify);
  }

  /** The property-set formatter: collect labels flag by flag, then "(none)" or the labels joined. */
  method PropertiesString(p: set<Property>) returns (s: string)
    ensures s == Describe(p)
  {
    var results: seq<string> := [];
    for i := 0 to |LabelledFlags|
      invariant results == StepLabels(p, LabelledFlags[..i])
    {
      assert LabelledFlags[..i + 1][..i] == LabelledFlags[..i];
      var option := LabelledFlags[i];
      if option !in p {
        continue;
      }
      match option {
        case Read =>
          results := results + [ReadLabel];
        case WriteWithoutResponse =>
          if WriteWithoutResponse in p {
            results := results + [WriteWithoutResponseLabel];
          } else {
            results := results + [WriteLabel];
          }
        case Write =>
          if WriteWithoutResponse in p {
            results := results + [WriteWithoutResponseLabel];
          } else {
            results := results + [WriteLabel];
          }
        case Notify =>
          results := results + [NotifyLabel];
        case _ =>
          assert false;
      }
    }
    assert LabelledFlags[..|LabelledFlags|] == LabelledFlags;
    StepLabelsAreLabels(p);
    if results == [] {
      return NoneLabel;
    }
    return Join(results, Separator);
  }

  /** The text is "(none)" exactly when none of read, write-without-response, write and notify
      is in the set. */
  lemma DescribeNoneIff(p: set<Property>)
    ensures Describe(p) == NoneLabel <==>
      Read !in p && WriteWithoutResponse !in p && Write !in p && Notify !in p
  {
    var ls := Labels(p);
    if ls != [] {
      assert ls[0] in {ReadLabel, WriteLabel, WriteWithoutResponseLabel, NotifyLabel};
      JoinHead(ls, Separator);
      assert Describe(p)[0] != NoneLabel[0];
    }
  }

  /** Flags other than the four labelled ones never change the text. */
  lemma DescribeIgnoresOtherFlags(p: set<Property>)
    ensures Describe(p) == Describe(p * {Read, WriteWithoutResponse, Write, Notify})
  {
    assert Labels(p) == Labels(p * {Read, WriteWithoutResponse, Write, Notify});
  }

  /** How many times `text` occurs in `ls`. */
  function Count(ls: seq<string>, text: string): nat {
    if ls == [] then 0 else (if ls[0] == text then 1 else 0) + Count(ls[1..], text)
  }

  lemma {:induction false} CountAppend(a: seq<string>, b: seq<string>, text: string)
    ensures Count(a + b, text) == Count(a, text) + Count(b, text)
  {
    if a == [] {
      assert a + b == b;
    } else {
      assert (a + b)[0] == a[0] && (a + b)[1..] == a[1..] + b;
      CountAppend(a[1..], b, text);
    }
  }

  /** Each label occurs as often as the flags say: "read" and "notify" at most once, iff
      their flag is set; "write" once iff write is set without write-without-response;
      "write(without response)" once for write-without-response alone and twice with both. */
  lemma LabelCounts(p: set<Property>)
    ensures Count(Labels(p), ReadLabel) == (if Read in p then 1 else 0)
    ensures Count(Labels(p), NotifyLabel) == (if Notify in p then 1 else 0)
    ensures Count(Labels(p), WriteLabel) == (if Write in p && WriteWithoutResponse !in p then 1 else 0)
    ensures Count(Labels(p), WriteWithoutResponseLabel) ==
      (if WriteWithoutResponse in p then (if Write in p then 2 else 1) else 0)
  {
    var r: seq<string> := if Read in p then [ReadLabel] else [];
    var ww: seq<string> := if WriteWithoutResponse in p then [WriteWithoutResponseLabel] else [];
    var w: seq<string> := if Write in p then [if WriteWithoutResponse in p then WriteWithoutResponseLabel else WriteLabel] else [];
    var n: seq<string> := if Notify in p then [NotifyLabel] else [];
    assert Labels(p) == r + ww + w + n;
    forall text | text in {ReadLabel, NotifyLabel, WriteLabel, WriteWithoutResponseLabel}
      ensures Count(Labels(p), text) == Count(r, text) + Count(ww, text) + Count(w, text) + Count(n, text)
    {
      CountAppend(r + ww + w, n, text);
      CountAppend(r + ww, w, text);
      CountAppend(r, ww, text);
    }
    forall text, x | x in {ReadLabel, NotifyLabel, WriteLabel, WriteWithoutResponseLabel}
      ensures Count([x], text) == if x == text then 1 else 0
    {
      assert [x][1..] == [];
    }
  }

  /** The labels come in the fixed flag order: "read" first when present, "notify" last when
      present. */
  lemma LabelOrder(p: set<Property>)
    ensures Read in p ==> Labels(p)[0] == ReadLabel
    ensures Notify in p ==> Labels(p)[|Labels(p)| - 1] == NotifyLabel
  {
  }

  /** The text of a descriptor value: a string as it is, anything else as "". */
  function TextOrEmpty(v: DescriptorValue): string {
    match v
    case Text(t) => t
    case NonText => ""
  }

  /** The user description of a descriptor list: the value of the first descriptor with the
      user-description UUID, or "" when none has it. */
  function FirstUserDescription(ds: seq<Descriptor>): string {
    if ds == [] then ""
    else if ds[0].uuid == UserDescriptionUuid then TextOrEmpty(ds[0].value)
    else FirstUserDescription(ds[1..])
  }

  /** The user description of a characteristic ("" with no descriptors at all). */
  function UserDescriptionOf(c: Characteristic): string {
    if c.descriptors.None? then "" else FirstUserDescription(c.descriptors.value)
  }

  /** The first descriptor with the user-description UUID decides the text. */
  lemma {:induction false} FirstMatchDecides(ds: seq<Descriptor>, k: nat)
    requires k < |ds| && ds[k].uuid == UserDescriptionUuid
    requires forall j :: 0 <= j < k ==> ds[j].uuid != UserDescriptionUuid
    ensures FirstUserDescription(ds) == TextOrEmpty(ds[k].value)
  {
    if k > 0 {
      assert ds[1..][k - 1] == ds[k];
      FirstMatchDecides(ds[1..], k - 1);
    }
  }

  /** With no descriptor carrying the user-description UUID, the text is "". */
  lemma {:induction false} NoMatchIsEmpty(ds: seq<Descriptor>)
    requires forall j :: 0 <= j < |ds| ==> ds[j].uuid != UserDescriptionUuid
    ensures FirstUserDescription(ds) == ""
  {
    if ds != [] {
      NoMatchIsEmpty(ds[1..]);
    }
  }

  /** The user-description search: "" with no (or no listed) descriptors, otherwise the first
      user-description descriptor's string value. */
  method UserDescription(c: Characteristic) returns (s: string)
    ensures s == UserDescriptionOf(c)
  {
    if c.descriptors.None? || c.descriptors.value == [] {
      return "";
    }
    var descriptors := c.descriptors.value;
    for i := 0 to |descriptors|
      invariant FirstUserDescription(descriptors[i..]) == FirstUserDescription(descriptors)
    {
      assert descriptors[i..][1..] == descriptors[i + 1..];
      if descriptors[i].uuid == UserDescriptionUuid {
        return TextOrEmpty(descriptors[i].value);
      }
    }
    return "";
  }
}
