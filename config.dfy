/** The task configuration and its defaulting step (`Config.complete_config`).

    A configuration is a map from top-level names to either a leaf value or a
    section (an attribute bag of key/value pairs). Completion walks six sections
    in a fixed order and adds each default key that the section does not hold yet.
    The `wide_psf` section is created when absent; every other section must
    already exist, otherwise the source raises `AttributeError` at that point,
    with the sections before it already filled in. */
module Settings {
  import opened Common

  datatype Value =
    | Int(i: int)
    | Real(r: real)
    | Bool(b: bool)
    | Str(s: string)
    | List(items: seq<Value>)

  datatype Node = Leaf(value: Value) | Section(fields: map<string, Value>)

  /** The default table of one section, in the source's key order */
  type Defaults = seq<(string, Value)>

  /** One section visited by `complete_config`: its name, its defaults and whether
      it is created when absent */
  datatype Step = Step(name: string, defaults: Defaults, create: bool)

  function SexDefaults(): Defaults {
    [("b", Int(64)), ("f", Int(3)), ("sigma", Real(3.0)), ("minarea", Int(2)),
     ("deblend_cont", Real(0.005)), ("deblend_nthresh", Int(32)), ("sky_subtract", Bool(true)),
     ("flux_aper", List([Int(3), Int(6)])), ("show_fig", Bool(false))]
  }

  function FluxModelDefaults(): Defaults {
    [("gaussian_radius", Real(1.5)), ("gaussian_threshold", Real(0.05)), ("unmask_lowsb", Bool(false)),
     ("sb_lim", Real(26.0)), ("unmask_ratio", Int(3)), ("interp", Str("iraf")), ("minarea", Int(25))]
  }

  function KernelDefaults(): Defaults {
    [("kernel_size", Int(8)), ("kernel_edge", Int(1)), ("nkernel", Int(25)),
     ("circularize", Bool(false)), ("show_fig", Bool(true))]
  }

  function StarHaloDefaults(): Defaults {
    [("fwhm_lim", Int(200)), ("padsize", Int(50)), ("edgesize", Int(5)), ("b", Int(32)), ("f", Int(3)),
     ("sigma", Real(3.5)), ("minarea", Int(3)), ("deblend_cont", Real(0.003)), ("deblend_nthresh", Int(32)),
     ("sky_subtract", Bool(true)), ("flux_aper", List([Int(3), Int(6)])), ("mask_contam", Bool(true)),
     ("interp", Str("iraf")), ("cval", Str("nan"))]
  }

  function WidePsfDefaults(): Defaults {
    [("frac", Real(0.3)), ("fwhm", Real(2.28)), ("beta", Int(3)),
     ("n_s", List([Real(3.44), Real(2.89), Real(2.07), Int(4)])),
     ("theta_s", List([Int(5), Real(64.6), Real(117.5), Int(1200)]))]
  }

  function CleanDefaults(): Defaults {
    [("clean_img", Bool(true)), ("clean_file", Bool(false)), ("replace_with_noise", Bool(false)),
     ("gaussian_radius", Real(1.5)), ("gaussian_threshold", Real(0.003)), ("bright_lim", Real(16.5)),
     ("r", Real(8.0))]
  }

  /** The sections in the order `complete_config` visits them */
  function Steps(): seq<Step> {
    [Step("sex", SexDefaults(), false),
     Step("fluxmodel", FluxModelDefaults(), false),
     Step("kernel", KernelDefaults(), false),
     Step("starhalo", StarHaloDefaults(), false),
     Step("wide_psf", WidePsfDefaults(), true),
     Step("clean", CleanDefaults(), false)]
  }

  function KeysOf(d: Defaults): set<string> {
    set i | 0 <= i < |d| :: d[i].0
  }

  /** The value the default table gives `k`: its first entry for `k` */
  function Lookup(d: Defaults, k: string): Value
    requires k in KeysOf(d)
  {
    if d[0].0 == k then d[0].1 else Lookup(d[1..], k)
  }

  /** A section after defaulting: every key it holds keeps its value, and each
      default key it lacks gets the default value. */
  function Merged(sec: map<string, Value>, d: Defaults): (r: map<string, Value>)
    ensures r.Keys == sec.Keys + KeysOf(d)
  {
    map k | k in sec.Keys + KeysOf(d) :: if k in sec then sec[k] else Lookup(d, k)
  }

  /** The outcome of completion: the configuration as left behind, and the name
      of the section whose absence raised `AttributeError`, if any */
  datatype Completion = Completion(entries: map<string, Node>, missing: Option<string>)

  /** Completion of `e` by the steps `steps`, in order */
  function Run(e: map<string, Node>, steps: seq<Step>): Completion
    decreases |steps|
  {
    if steps == [] then Completion(e, None)
    else
      var st := steps[0];
      if st.name in e && e[st.name].Section? then
        Run(e[st.name := Section(Merged(e[st.name].fields, st.defaults))], steps[1..])
      else if st.name !in e && st.create then
        Run(e[st.name := Section(Merged(map[], st.defaults))], steps[1..])
      else
        Completion(e, Some(st.name))
  }

  function Complete(e: map<string, Node>): Completion {
    Run(e, Steps())
  }

  /** The attribute-bag configuration object */
  class TaskConfig {
    var entries: map<string, Node>

    constructor (e: map<string, Node>)
      ensures entries == e
    {
      entries := e;
    }

    /** Add the defaults of one section: for each default key, set it unless present */
    static method FillSection(sec: map<string, Value>, d: Defaults) returns (r: map<string, Value>)
      ensures r == Merged(sec, d)
    {
      r := sec;
      var i := 0;
      while i < |d|
        invariant 0 <= i <= |d|
        invariant r == Merged(sec, d[..i])
      {
        var (name, value) := d[i];
        MergedStep(sec, d, i);
        if name !in r {
          r := r[name := value];
        }
        i := i + 1;
      }
      assert d[..|d|] == d;
    }

    /** `complete_config`: fill every section's defaults in the source's order */
    method CompleteConfig() returns (missing: Option<string>)
      modifies this
      ensures Completion(entries, missing) == Complete(old(entries))
    {
      var steps := Steps();
      var k := 0;
      while k < |steps|
        invariant 0 <= k <= |steps|
        invariant Run(entries, steps[k..]) == Complete(old(entries))
      {
        var st := steps[k];
        assert steps[k..][0] == st && steps[k..][1..] == steps[k + 1..];
        ghost var before := entries;
        if st.name in entries && entries[st.name].Section? {
          var filled := FillSection(entries[st.name].fields, st.defaults);
          entries := entries[st.name := Section(filled)];
          assert Run(before, steps[k..]) == Run(entries, steps[k + 1..]);
        } else if st.name !in entries && st.create {
          entries := entries[st.name := Section(map[])];
          var filled := FillSection(map[], st.defaults);
          entries := entries[st.name := Section(filled)];
          assert entries == before[st.name := Section(Merged(map[], st.defaults))];
          assert Run(before, steps[k..]) == Run(entries, steps[k + 1..]);
        } else {
          return Some(st.name);
        }
        k := k + 1;
      }
      return None;
    }
  }

  lemma LookupPrefix(d: Defaults, i: nat, k: string)
    requires i < |d| && k in KeysOf(d[..i])
    ensures k in KeysOf(d[..i + 1]) && Lookup(d[..i + 1], k) == Lookup(d[..i], k)
  {
    if d[0].0 != k {
      assert d[..i + 1][1..] == d[1..][..i];
      assert d[..i][1..] == d[1..][..i - 1];
      var j :| 0 <= j < i && d[..i][j].0 == k;
      assert d[1..][..i - 1][j - 1].0 == k;
      LookupPrefix(d[1..], i - 1, k);
    }
  }

  lemma LookupNew(d: Defaults, i: nat)
    requires i < |d| && d[i].0 !in KeysOf(d[..i])
    ensures d[i].0 in KeysOf(d[..i + 1]) && Lookup(d[..i + 1], d[i].0) == d[i].1
  {
    assert d[..i + 1][i] == d[i];
    if i > 0 {
      assert d[0].0 != d[i].0 by { assert d[..i][0] == d[0]; }
      assert d[..i + 1][1..] == d[1..][..i];
      assert d[..i][1..] == d[1..][..i - 1];
      LookupNew(d[1..], i - 1);
    }
  }

  /** One turn of the defaulting loop extends the merge by one default entry */
  lemma MergedStep(sec: map<string, Value>, d: Defaults, i: nat)
    requires i < |d|
    ensures Merged(sec, d[..i + 1]) ==
            (if d[i].0 in Merged(sec, d[..i]) then Merged(sec, d[..i]) else Merged(sec, d[..i])[d[i].0 := d[i].1])
  {
    var m, m' := Merged(sec, d[..i]), Merged(sec, d[..i + 1]);
    assert KeysOf(d[..i + 1]) == KeysOf(d[..i]) + {d[i].0} by {
      assert d[..i + 1] == d[..i] + [d[i]];
    }
    forall k | k in m && k !in sec
      ensures m'[k] == m[k]
    {
      LookupPrefix(d, i, k);
    }
    if d[i].0 !in m {
      LookupNew(d, i);
    }
  }
}

/** Properties of `complete_config` */
module SettingsFacts {
  import opened Common
  import opened Settings

  function Names(steps: seq<Step>): set<string> {
    set i | 0 <= i < |steps| :: steps[i].name
  }

  ghost predicate Distinct(steps: seq<Step>) {
    forall i, j :: 0 <= i < j < |steps| ==> steps[i].name != steps[j].name
  }

  /** A section that completion can fill: it exists as a section, or it is absent
      and completion creates it */
  predicate Present(e: map<string, Node>, st: Step) {
    (st.name in e && e[st.name].Section?) || (st.name !in e && st.create)
  }

  /** Merging keeps every value the section held and adds exactly the default keys */
  lemma MergedSpec(sec: map<string, Value>, d: Defaults)
    ensures forall k :: k in sec ==> k in Merged(sec, d) && Merged(sec, d)[k] == sec[k]
    ensures forall k :: k in Merged(sec, d) && k !in sec ==> k in KeysOf(d) && Merged(sec, d)[k] == Lookup(d, k)
    ensures KeysOf(d) <= Merged(sec, d).Keys
  {
  }

  /** Merging a second time changes nothing */
  lemma MergedIdempotent(sec: map<string, Value>, d: Defaults)
    ensures Merged(Merged(sec, d), d) == Merged(sec, d)
  {
    var m := Merged(sec, d);
    assert Merged(m, d).Keys == m.Keys;
    forall k | k in m ensures Merged(m, d)[k] == m[k] { }
  }

  /** Completion never removes an entry, never touches a leaf, never changes a key a
      section already held, and leaves names it does not visit alone (also when it fails) */
  lemma {:induction false} RunFrame(e: map<string, Node>, steps: seq<Step>)
    ensures var r := Run(e, steps).entries;
      && e.Keys <= r.Keys
      && (forall n :: n in r && n !in Names(steps) ==> n in e && r[n] == e[n])
      && (forall n :: n in e && e[n].Leaf? ==> r[n] == e[n])
      && (forall n :: n in e && e[n].Section? ==>
            r[n].Section? && forall k :: k in e[n].fields ==> k in r[n].fields && r[n].fields[k] == e[n].fields[k])
    decreases |steps|
  {
    if steps != [] {
      var st := steps[0];
      assert Names(steps) == {st.name} + Names(steps[1..]) by {
        forall n | n in Names(steps) ensures n in {st.name} + Names(steps[1..]) {
          var i :| 0 <= i < |steps| && steps[i].name == n;
          if i > 0 { assert steps[1..][i - 1].name == n; }
        }
      }
      if st.name in e && e[st.name].Section? {
        MergedSpec(e[st.name].fields, st.defaults);
        RunFrame(e[st.name := Section(Merged(e[st.name].fields, st.defaults))], steps[1..]);
      } else if st.name !in e && st.create {
        RunFrame(e[st.name := Section(Merged(map[], st.defaults))], steps[1..]);
      }
    }
  }

  /** After a successful completion every visited section exists and holds every default key */
  lemma {:induction false} RunFills(e: map<string, Node>, steps: seq<Step>)
    requires Run(e, steps).missing == None
    ensures var r := Run(e, steps).entries;
      forall i :: 0 <= i < |steps| ==>
        steps[i].name in r && r[steps[i].name].Section? && KeysOf(steps[i].defaults) <= r[steps[i].name].fields.Keys
    decreases |steps|
  {
    if steps != [] {
      var st := steps[0];
      var e1 := if st.name in e && e[st.name].Section?
                then e[st.name := Section(Merged(e[st.name].fields, st.defaults))]
                else e[st.name := Section(Merged(map[], st.defaults))];
      assert Run(e, steps) == Run(e1, steps[1..]);
      RunFills(e1, steps[1..]);
      RunFrame(e1, steps[1..]);
      var r := Run(e, steps).entries;
      forall i | 0 <= i < |steps|
        ensures steps[i].name in r && r[steps[i].name].Section? && KeysOf(steps[i].defaults) <= r[steps[i].name].fields.Keys
      {
        if i > 0 {
          assert steps[1..][i - 1] == steps[i];
        }
      }
    }
  }

  /** Completion succeeds exactly when every visited section can be filled */
  lemma {:induction false} RunSucceedsIff(e: map<string, Node>, steps: seq<Step>)
    requires Distinct(steps)
    ensures Run(e, steps).missing == None <==> forall i :: 0 <= i < |steps| ==> Present(e, steps[i])
    decreases |steps|
  {
    if steps != [] {
      var st := steps[0];
      if Present(e, st) {
        var e1 := if st.name in e && e[st.name].Section?
                  then e[st.name := Section(Merged(e[st.name].fields, st.defaults))]
                  else e[st.name := Section(Merged(map[], st.defaults))];
        assert Run(e, steps) == Run(e1, steps[1..]);
        RunSucceedsIff(e1, steps[1..]);
        forall i | 1 <= i < |steps| ensures Present(e1, steps[i]) == Present(e, steps[i]) {
          assert steps[i].name != st.name;
        }
        assert forall i :: 1 <= i < |steps| ==> steps[1..][i - 1] == steps[i];
      }
    }
  }

  /** A failed completion names the first section that could not be filled */
  lemma {:induction false} RunFailsAtFirstAbsent(e: map<string, Node>, steps: seq<Step>)
    requires Run(e, steps).missing.Some?
    ensures exists i :: 0 <= i < |steps| && steps[i].name == Run(e, steps).missing.value && !Present(e, steps[i])
    decreases |steps|
  {
    var st := steps[0];
    if Present(e, st) {
      var e1 := if st.name in e && e[st.name].Section?
                then e[st.name := Section(Merged(e[st.name].fields, st.defaults))]
                else e[st.name := Section(Merged(map[], st.defaults))];
      assert Run(e, steps) == Run(e1, steps[1..]);
      RunFailsAtFirstAbsent(e1, steps[1..]);
      var i :| 0 <= i < |steps[1..]| && steps[1..][i].name == Run(e, steps).missing.value && !Present(e1, steps[1..][i]);
      assert steps[1..][i] == steps[i + 1];
      if steps[i + 1].name == st.name {
        assert Present(e1, steps[i + 1]);
      }
      assert !Present(e, steps[i + 1]);
    } else {
      assert !Present(e, steps[0]);
    }
  }

  /** A completed configuration is a fixed point of completion */
  lemma {:induction false} RunIdempotent(e: map<string, Node>, steps: seq<Step>)
    requires Distinct(steps)
    requires Run(e, steps).missing == None
    ensures Run(Run(e, steps).entries, steps) == Completion(Run(e, steps).entries, None)
    decreases |steps|
  {
    if steps != [] {
      var st := steps[0];
      var e1 := if st.name in e && e[st.name].Section?
                then e[st.name := Section(Merged(e[st.name].fields, st.defaults))]
                else e[st.name := Section(Merged(map[], st.defaults))];
      assert Run(e, steps) == Run(e1, steps[1..]);
      var f := Run(e1, steps[1..]).entries;
      RunFrame(e1, steps[1..]);
      assert st.name !in Names(steps[1..]) by {
        forall i | 0 <= i < |steps[1..]| ensures steps[1..][i].name != st.name {
          assert steps[1..][i] == steps[i + 1];
        }
      }
      assert f[st.name] == e1[st.name];
      MergedIdempotent(if st.name in e && e[st.name].Section? then e[st.name].fields else map[], st.defaults);
      assert f[st.name := Section(Merged(f[st.name].fields, st.defaults))] == f;
      assert Distinct(steps[1..]) by {
        forall i, j | 0 <= i < j < |steps[1..]| ensures steps[1..][i].name != steps[1..][j].name {
          assert steps[1..][i] == steps[i + 1] && steps[1..][j] == steps[j + 1];
        }
      }
      RunIdempotent(e1, steps[1..]);
    }
  }

  lemma StepsDistinct()
    ensures Distinct(Steps())
  {
  }

  /** `complete_config` succeeds exactly when `sex`, `fluxmodel`, `kernel`, `starhalo`
      and `clean` are sections and `wide_psf` is absent or a section */
  lemma CompleteSucceedsIff(e: map<string, Node>)
    ensures Complete(e).missing == None <==>
      && (forall n :: n in ["sex", "fluxmodel", "kernel", "starhalo", "clean"] ==> n in e && e[n].Section?)
      && ("wide_psf" in e ==> e["wide_psf"].Section?)
  {
    StepsDistinct();
    RunSucceedsIff(e, Steps());
    var s := Steps();
    assert s[0].name == "sex" && s[1].name == "fluxmodel" && s[2].name == "kernel";
    assert s[3].name == "starhalo" && s[4].name == "wide_psf" && s[5].name == "clean";
  }

  /** After a successful `complete_config` every section holds every default key,
      `wide_psf` included */
  lemma CompleteFillsDefaults(e: map<string, Node>)
    requires Complete(e).missing == None
    ensures forall st :: st in Steps() ==>
      var r := Complete(e).entries;
      st.name in r && r[st.name].Section? && KeysOf(st.defaults) <= r[st.name].fields.Keys
  {
    RunFills(e, Steps());
  }

  /** `complete_config` never overwrites a value that was set, never removes an entry
      and never touches a top-level leaf */
  lemma CompleteKeepsValues(e: map<string, Node>)
    ensures var r := Complete(e).entries;
      && e.Keys <= r.Keys
      && (forall n :: n in e && e[n].Leaf? ==> r[n] == e[n])
      && (forall n, k :: n in e && e[n].Section? && k in e[n].fields ==>
            r[n].Section? && k in r[n].fields && r[n].fields[k] == e[n].fields[k])
  {
    RunFrame(e, Steps());
  }

  /** A second `complete_config` changes nothing */
  lemma CompleteIdempotent(e: map<string, Node>)
    requires Complete(e).missing == None
    ensures Complete(Complete(e).entries) == Completion(Complete(e).entries, None)
  {
    StepsDistinct();
    RunIdempotent(e, Steps());
  }
}
