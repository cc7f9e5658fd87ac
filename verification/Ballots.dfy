/** Votes on packages and the metadata that makes a vote count toward consensus. */
module Ballots {
  import opened Wrappers
  import Identifiers
  import Text

  datatype AnalysisBundles = AnalysisBundles(
    policyBundleId: string,
    featureSchemaId: string,
    expertBundleId: string,
    embeddingModelId: string,
    indexEpoch: string,
    thresholdProfileId: string,
    llmPromptProfileId: string,
    osvSnapshotEpoch: string)

  function EffectiveOsvEpoch(b: AnalysisBundles): string {
    var trimmed := Text.Trim(b.osvSnapshotEpoch);
    if trimmed == "" then "osv-off" else trimmed
  }

  function RequiredIds(b: AnalysisBundles): (ids: seq<string>)
    ensures |ids| == 7
  {
    [b.policyBundleId, b.featureSchemaId, b.expertBundleId, b.embeddingModelId,
     b.indexEpoch, b.thresholdProfileId, b.llmPromptProfileId]
  }

  predicate IsConsensusComplete(b: AnalysisBundles) {
    && (forall i :: 0 <= i < 7 ==> Text.Trim(RequiredIds(b)[i]) != "")
    && Text.Trim(EffectiveOsvEpoch(b)) != ""
  }

  predicate IsConsensusGrade(version: string, b: AnalysisBundles, evidenceDigest: string) {
    && !("degraded" <= Text.Trim(version))
    && IsConsensusComplete(b)
    && Text.Trim(evidenceDigest) != ""
  }

  /** What keeps a vote from counting: a degraded scanner, or an id or the evidence digest left blank. */
  predicate Defective(version: string, b: AnalysisBundles, evidenceDigest: string) {
    || "degraded" <= Text.Trim(version)
    || Text.Blank(b.policyBundleId) || Text.Blank(b.featureSchemaId) || Text.Blank(b.expertBundleId)
    || Text.Blank(b.embeddingModelId) || Text.Blank(b.indexEpoch) || Text.Blank(b.thresholdProfileId)
    || Text.Blank(b.llmPromptProfileId) || Text.Blank(evidenceDigest)
  }

  /** Exactly the votes without such a defect count; the snapshot epoch may be left blank. */
  lemma GradeExactlyWhenNotDefective(version: string, b: AnalysisBundles, evidenceDigest: string)
    ensures IsConsensusGrade(version, b, evidenceDigest) <==> !Defective(version, b, evidenceDigest)
  {
    hide Text.Trim, Text.Blank;
    var ids := RequiredIds(b);
    forall i | 0 <= i < 7 ensures Text.Trim(ids[i]) == "" <==> Text.Blank(ids[i]) { TrimsToNothing(ids[i]); }
    TrimsToNothing(evidenceDigest);
    TrimsToNothing(b.osvSnapshotEpoch);
    EffectiveEpochNotBlank(b);
    assert ids[0] == b.policyBundleId && ids[1] == b.featureSchemaId && ids[2] == b.expertBundleId;
    assert ids[3] == b.embeddingModelId && ids[4] == b.indexEpoch && ids[5] == b.thresholdProfileId;
    assert ids[6] == b.llmPromptProfileId;
  }

  lemma TrimsToNothing(s: string)
    ensures Text.Trim(s) == "" <==> Text.Blank(s)
  {
    var _, _ := Text.TrimMeans(s);
  }

  lemma EffectiveEpochNotBlank(b: AnalysisBundles)
    ensures Text.Trim(EffectiveOsvEpoch(b)) != ""
  {
    hide Text.Trim, Text.Blank;
    var epoch := EffectiveOsvEpoch(b);
    TrimsToNothing(epoch);
    var _, _ := Text.TrimMeans(b.osvSnapshotEpoch);
    assert !Text.Blank(epoch) by { NotBlank(epoch); }
  }

  lemma NotBlank(s: string)
    requires s != "" && !Text.IsWhitespace(s[0])
    ensures !Text.Blank(s)
  {
  }

  /** What a scanner profile is made of: the version, the ids and the epoch, without surrounding space. */
  function ProfileParts(version: string, b: AnalysisBundles): (parts: seq<string>)
    ensures |parts| == 9
  {
    [Text.Trim(version), Text.Trim(b.policyBundleId), Text.Trim(b.featureSchemaId), Text.Trim(b.expertBundleId),
     Text.Trim(b.embeddingModelId), Text.Trim(b.indexEpoch), Text.Trim(b.thresholdProfileId),
     Text.Trim(b.llmPromptProfileId), Text.Trim(EffectiveOsvEpoch(b))]
  }

  const LABELS := ["scanner=", "policy=", "features=", "experts=", "embedding=", "index=",
                   "thresholds=", "llm_prompt=", "osv="]

  function Labelled(parts: seq<string>): seq<string>
    requires |parts| == 9
  {
    ["creg-scanner-profile-v1"] + seq(9, i requires 0 <= i < 9 => LABELS[i] + parts[i])
  }

  /** The text whose digest names a scanner profile. */
  function ProfileText(version: string, b: AnalysisBundles): string {
    Identifiers.Joined(Labelled(ProfileParts(version, b)))
  }

  /** An epoch left blank is the same as the mark for none; any other stands as it is. */
  lemma BlankEpochIsOff(version: string, b: AnalysisBundles)
    ensures Text.Blank(b.osvSnapshotEpoch) ==>
      ProfileText(version, b) == ProfileText(version, b.(osvSnapshotEpoch := "osv-off"))
    ensures !Text.Blank(b.osvSnapshotEpoch) ==> EffectiveOsvEpoch(b) == Text.Trim(b.osvSnapshotEpoch)
  {
    hide Text.Trim, Text.Blank, Identifiers.Joined, Labelled;
    TrimsToNothing(b.osvSnapshotEpoch);
    assert Text.Trim("osv-off") == "osv-off" by { OffIsTrimmed(); }
  }

  lemma OffIsTrimmed()
    ensures Text.Trim("osv-off") == "osv-off"
  {
  }

  /** The text in full. */
  lemma ProfileTextFormat(version: string, b: AnalysisBundles)
    ensures var p := ProfileParts(version, b);
            ProfileText(version, b)
            == "creg-scanner-profile-v1" + "|" + ("scanner=" + p[0]) + "|" + ("policy=" + p[1])
               + "|" + ("features=" + p[2]) + "|" + ("experts=" + p[3]) + "|" + ("embedding=" + p[4])
               + "|" + ("index=" + p[5]) + "|" + ("thresholds=" + p[6]) + "|" + ("llm_prompt=" + p[7])
               + "|" + ("osv=" + p[8])
  {
    hide Text.Trim, EffectiveOsvEpoch, Identifiers.Joined, Labelled, ProfileParts;
    var f := Labelled(ProfileParts(version, b));
    LabelledAt(ProfileParts(version, b));
    JoinedPrefix(f, 1);
    JoinedPrefix(f, 2);
    JoinedPrefix(f, 3);
    JoinedPrefix(f, 4);
    JoinedPrefix(f, 5);
    JoinedPrefix(f, 6);
    JoinedPrefix(f, 7);
    JoinedPrefix(f, 8);
    JoinedPrefix(f, 9);
    Identifiers.JoinedStep(f[..1]);
    assert f[..10] == f;
  }

  lemma LabelledAt(p: seq<string>)
    requires |p| == 9
    ensures var f := Labelled(p);
            && |f| == 10 && f[0] == "creg-scanner-profile-v1" && f[1] == "scanner=" + p[0] && f[2] == "policy=" + p[1]
            && f[3] == "features=" + p[2] && f[4] == "experts=" + p[3] && f[5] == "embedding=" + p[4]
            && f[6] == "index=" + p[5] && f[7] == "thresholds=" + p[6] && f[8] == "llm_prompt=" + p[7]
            && f[9] == "osv=" + p[8]
  {
  }

  lemma JoinedPrefix(f: seq<string>, i: nat)
    requires 0 < i < |f|
    ensures Identifiers.Joined(f[..i + 1]) == Identifiers.Joined(f[..i]) + "|" + f[i]
  {
    hide Identifiers.Joined;
    Identifiers.JoinedStep(f[..i + 1]);
    assert f[..i + 1][..i] == f[..i];
  }

  lemma LabelsBarless(parts: seq<string>)
    requires |parts| == 9 && forall i :: 0 <= i < 9 ==> '|' !in parts[i]
    ensures Identifiers.TailBarless(Labelled(parts))
  {
    forall i | 1 <= i < 10 ensures '|' !in Labelled(parts)[i] {
      assert Labelled(parts)[i] == LABELS[i - 1] + parts[i - 1];
      assert '|' !in LABELS[i - 1];
    }
  }

  lemma LabelledInjective(parts: seq<string>, parts': seq<string>)
    requires |parts| == |parts'| == 9 && Labelled(parts) == Labelled(parts')
    ensures parts == parts'
  {
    forall i | 0 <= i < 9 ensures parts[i] == parts'[i] {
      assert Labelled(parts)[i + 1] == LABELS[i] + parts[i] && Labelled(parts')[i + 1] == LABELS[i] + parts'[i];
      assert (LABELS[i] + parts[i])[|LABELS[i]|..] == parts[i] && (LABELS[i] + parts'[i])[|LABELS[i]|..] == parts'[i];
    }
  }

  ghost predicate BarlessParts(version: string, b: AnalysisBundles) {
    forall i :: 0 <= i < 9 ==> '|' !in ProfileParts(version, b)[i]
  }

  /** Where no part holds a bar, one text stands for one profile: it is the same exactly when all parts are. */
  lemma ProfileTextExactlyWhen(version: string, b: AnalysisBundles, version': string, b': AnalysisBundles)
    requires BarlessParts(version, b) && BarlessParts(version', b')
    ensures ProfileText(version, b) == ProfileText(version', b') <==>
            && Text.Trim(version) == Text.Trim(version')
            && Text.Trim(b.policyBundleId) == Text.Trim(b'.policyBundleId)
            && Text.Trim(b.featureSchemaId) == Text.Trim(b'.featureSchemaId)
            && Text.Trim(b.expertBundleId) == Text.Trim(b'.expertBundleId)
            && Text.Trim(b.embeddingModelId) == Text.Trim(b'.embeddingModelId)
            && Text.Trim(b.indexEpoch) == Text.Trim(b'.indexEpoch)
            && Text.Trim(b.thresholdProfileId) == Text.Trim(b'.thresholdProfileId)
            && Text.Trim(b.llmPromptProfileId) == Text.Trim(b'.llmPromptProfileId)
            && Text.Trim(EffectiveOsvEpoch(b)) == Text.Trim(EffectiveOsvEpoch(b'))
  {
    hide Text.Trim, Identifiers.Joined, Identifiers.Unjoin, Labelled, EffectiveOsvEpoch, Identifiers.TailBarless;
    var (p, p') := (ProfileParts(version, b), ProfileParts(version', b'));
    PartsAgree(version, b, version', b');
    if ProfileText(version, b) == ProfileText(version', b') {
      LabelsBarless(p);
      LabelsBarless(p');
      LabelledSize(p);
      LabelledSize(p');
      Identifiers.UnjoinJoined(Labelled(p));
      Identifiers.UnjoinJoined(Labelled(p'));
      LabelledInjective(p, p');
    }
  }

  lemma LabelledSize(parts: seq<string>)
    requires |parts| == 9
    ensures |Labelled(parts)| == 10
  {
  }

  lemma PartsAgree(version: string, b: AnalysisBundles, version': string, b': AnalysisBundles)
    ensures var (p, p') := (ProfileParts(version, b), ProfileParts(version', b'));
            p == p' <==> p[0] == p'[0] && p[1] == p'[1] && p[2] == p'[2] && p[3] == p'[3] && p[4] == p'[4]
                         && p[5] == p'[5] && p[6] == p'[6] && p[7] == p'[7] && p[8] == p'[8]
  {
    hide Text.Trim, EffectiveOsvEpoch;
  }

  /** More than two thirds of the assigned validators. */
  function Quorum(count: nat): (q: nat)
    ensures 2 * count < 3 * q <= 2 * count + 3
  {
    2 * count / 3 + 1
  }
}
