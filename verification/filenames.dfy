/**
 * The two file names ilastikss/munge.py derives by string rewriting: the
 * output volume's name, which carries the label id, and the TIFF name a
 * prediction export is resaved under.
 */
module FileNames {
  import opened Wrappers
  import opened Strings
  import opened Decimal
  import opened Paths

  const LabelPrefix: string := "ilastik_label_"
  const LabelSuffix: string := ".tif"

  /** `'ilastik_label_%d.tif' % label`. */
  function LabelFileName(labelId: int): (r: string)
    ensures |LabelPrefix| <= |r| && r[..|LabelPrefix|] == LabelPrefix && EndsWith(r, LabelSuffix)
    ensures '/' !in r
  {
    var digits := IntToDecimal(labelId);
    DecimalHasNoSeparator(labelId);
    var r := LabelPrefix + digits + LabelSuffix;
    assert r[..|LabelPrefix|] == LabelPrefix;
    assert r[|r| - |LabelSuffix|..] == LabelSuffix;
    r
  }

  /** The label id a name of that form carries, if it has that form. */
  function LabelOfFileName(name: string): Option<int>
  {
    if |name| >= |LabelPrefix| + |LabelSuffix| && name[..|LabelPrefix|] == LabelPrefix && EndsWith(name, LabelSuffix)
    then ParseInt(name[|LabelPrefix|..|name| - |LabelSuffix|])
    else None
  }

  /** The output name gives back its label id, so different labels never share an output file. */
  lemma LabelFileNameRoundTrip(labelId: int)
    ensures LabelOfFileName(LabelFileName(labelId)) == Some(labelId)
  {
    var name := LabelFileName(labelId);
    var digits := IntToDecimal(labelId);
    assert name[|LabelPrefix|..|name| - |LabelSuffix|] == digits;
    ParseIntToDecimal(labelId);
  }

  lemma LabelFileNameInjective(a: int, b: int)
    requires LabelFileName(a) == LabelFileName(b)
    ensures a == b
  {
    LabelFileNameRoundTrip(a);
    LabelFileNameRoundTrip(b);
  }

  const PredictionsSuffix: string := " Predictions.h5"
  const TiffSuffix: string := "_Predictions.tiff"

  /** `fname.replace(" Predictions.h5", "_Predictions.tiff")`. */
  function PredictionsTiffName(fname: string): string
  {
    ReplaceAll(fname, PredictionsSuffix, TiffSuffix)
  }

  /** The pattern's only space is its first character, so an occurrence cannot straddle a boundary. */
  lemma NoStraddlingOccurrence(base: string, i: nat)
    requires i < |base| < i + |PredictionsSuffix|
    ensures !OccursAt(base + PredictionsSuffix, PredictionsSuffix, i)
  {
    var s := base + PredictionsSuffix;
    var d := |base| - i;
    assert s[|base|] == ' ';
    assert PredictionsSuffix[d] != ' ';
    assert s[i..i + |PredictionsSuffix|][d] == s[|base|];
  }

  /**
   * An export named `<base> Predictions.h5`, whose base holds no other
   * occurrence of the pattern, is resaved as `<base>_Predictions.tiff`.
   */
  lemma PredictionsTiffNameOfExport(base: string)
    requires forall i :: 0 <= i <= |base| ==> !OccursAt(base, PredictionsSuffix, i)
    ensures PredictionsTiffName(base + PredictionsSuffix) == base + TiffSuffix
  {
    var s := base + PredictionsSuffix;
    forall i | 0 <= i < |base|
      ensures !OccursAt(s, PredictionsSuffix, i)
    {
      if i + |PredictionsSuffix| <= |base| {
        assert s[i..i + |PredictionsSuffix|] == base[i..i + |PredictionsSuffix|];
        assert !OccursAt(base, PredictionsSuffix, i);
      } else {
        NoStraddlingOccurrence(base, i);
      }
    }
    ReplaceAllSkipsPrefix(base, PredictionsSuffix, PredictionsSuffix, TiffSuffix);
    assert PredictionsSuffix[..|PredictionsSuffix|] == PredictionsSuffix;
    assert PredictionsSuffix[|PredictionsSuffix|..] == "";
  }

  /**
   * A name without the pattern is returned unchanged, so the resave's
   * existence check then looks at the input file itself.
   */
  lemma PredictionsTiffNameWithoutPattern(fname: string)
    requires forall i :: 0 <= i <= |fname| ==> !OccursAt(fname, PredictionsSuffix, i)
    ensures PredictionsTiffName(fname) == fname
  {
    ReplaceAllWithoutOccurrence(fname, PredictionsSuffix, TiffSuffix);
  }
}
