/** The check at the start of `MrfTask.run` that wide-PSF subtraction is only asked
    for on Dragonfly data. The dataset name is compared after `str.lower()`. */
module Guards {

  function LowerChar(c: char): char {
    if 'A' <= c <= 'Z' then (c as int + 32) as char else c
  }

  /** ASCII lower-casing of a dataset name */
  function Lower(s: string): (r: string)
    ensures |r| == |s|
    ensures forall k :: 0 <= k < |s| ==> r[k] == LowerChar(s[k])
  {
    if s == [] then [] else [LowerChar(s[0])] + Lower(s[1..])
  }

  predicate IsDragonfly(dataset: string) {
    Lower(dataset) == "df" || Lower(dataset) == "dragonfly"
  }

  /** The assertion as written: `(ds != 'df' or ds != 'dragonfly') and wide_psf` or
      `not wide_psf`, with `ds` the lower-cased dataset name */
  predicate WidePsfAllowedAsWritten(dataset: string, widePsf: bool) {
    var ds := Lower(dataset);
    ((ds != "df" || ds != "dragonfly") && widePsf) || !widePsf
  }

  /** No name equals both "df" and "dragonfly", so the assertion as written never fails:
      an HSC low-resolution image with `wide_psf=True` passes it */
  lemma WidePsfCheckNeverFails(dataset: string, widePsf: bool)
    ensures WidePsfAllowedAsWritten(dataset, widePsf)
  {
    assert Lower(dataset) != "df" || Lower(dataset) != "dragonfly" by {
      if Lower(dataset) == "df" {
        assert Lower(dataset)[1] == 'f' != "dragonfly"[1];
      }
    }
  }

  /** The check its message describes: wide-PSF subtraction needs Dragonfly data */
  predicate WidePsfAllowed(dataset: string, widePsf: bool) {
    !widePsf || IsDragonfly(dataset)
  }

  /** The intended check rejects exactly the non-Dragonfly datasets with `wide_psf`,
      and it only rejects what the assertion as written would have let through */
  lemma WidePsfAllowedSpec(dataset: string, widePsf: bool)
    ensures !WidePsfAllowed(dataset, widePsf) <==> widePsf && !IsDragonfly(dataset)
    ensures WidePsfAllowed(dataset, widePsf) ==> WidePsfAllowedAsWritten(dataset, widePsf)
  {
    WidePsfCheckNeverFails(dataset, widePsf);
  }

  /** A name without capitals is its own lower-case form */
  lemma LowerKeepsLowerCase(s: string)
    requires forall k :: 0 <= k < |s| ==> !('A' <= s[k] <= 'Z')
    ensures Lower(s) == s
  {
  }

  /** The intended check accepts "DF" and "dragonfly" */
  lemma WidePsfAllowsDragonfly()
    ensures WidePsfAllowed("DF", true) && WidePsfAllowed("dragonfly", true)
  {
    assert Lower("DF") == "df" by {
      assert LowerChar('D') == 'd' && LowerChar('F') == 'f';
    }
    LowerKeepsLowerCase("dragonfly");
  }

  /** The intended check rejects HSC data, which the assertion as written lets through */
  lemma WidePsfRejectsHsc()
    ensures !WidePsfAllowed("hsc", true) && WidePsfAllowedAsWritten("hsc", true)
  {
    LowerKeepsLowerCase("hsc");
    WidePsfCheckNeverFails("hsc", true);
  }
}
