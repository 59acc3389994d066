/**
 * Digital-signature detection (`detectDigitalSignature`): the form fields of
 * the document whose field type is `/Sig` are counted and named. Loading the
 * document and reading its form are a parameter of the model.
 */
module SignatureDetect {
  import opened Wrappers
  import opened SeqUtil

  /** A form field: its name, and the rendering of its `FT` entry if it has one. */
  datatype FormField = FormField(name: string, ft: Option<string>)

  /** The document's form fields, or the failure of loading it or reading its form. */
  datatype FormOutcome = Fields(fields: seq<FormField>) | LoadFailed

  /** `DigitalSignatureResult`. */
  datatype DigitalResult = DigitalResult(found: bool, count: nat, details: seq<string>)

  /** `ft?.toString() === "/Sig"`. */
  predicate IsSignatureField(f: FormField) {
    f.ft == Some("/Sig")
  }

  const DetailPrefix: string := "Champ signature : \""

  /** `Champ signature : "<name>"`. */
  function Detail(f: FormField): string {
    DetailPrefix + f.name + "\""
  }

  /** The field's name can be read back from its detail line. */
  lemma DetailNamesField(f: FormField)
    ensures var d := Detail(f);
      |d| == |DetailPrefix| + |f.name| + 1 && d[|DetailPrefix|..|d| - 1] == f.name
  {
    var d := Detail(f);
    assert d == DetailPrefix + (f.name + "\"");
  }

  const NoFormMessage: string := "Pas de formulaire d\U{00E9}tect\U{00E9}"

  function Details(sigs: seq<FormField>): (ds: seq<string>)
    ensures |ds| == |sigs| && forall k :: 0 <= k < |sigs| ==> ds[k] == Detail(sigs[k])
  {
    seq(|sigs|, k requires 0 <= k < |sigs| => Detail(sigs[k]))
  }

  /** `detectDigitalSignature`. */
  function Detect(outcome: FormOutcome): DigitalResult {
    match outcome
    case LoadFailed => DigitalResult(false, 0, [NoFormMessage])
    case Fields(fields) =>
      var sigs := Filter(fields, IsSignatureField);
      if |sigs| > 0 then DigitalResult(true, |sigs|, Details(sigs))
      else DigitalResult(false, 0, [])
  }

  /** The number of signature fields, counted one field at a time. */
  function CountSignatureFields(fields: seq<FormField>): nat {
    if fields == [] then 0
    else CountSignatureFields(fields[..|fields| - 1]) + (if IsSignatureField(fields[|fields| - 1]) then 1 else 0)
  }

  lemma {:induction false} FilterCount(fields: seq<FormField>)
    ensures |Filter(fields, IsSignatureField)| == CountSignatureFields(fields)
  {
    if fields != [] {
      var init, last := fields[..|fields| - 1], fields[|fields| - 1];
      assert fields == init + [last];
      FilterAppend(init, [last], IsSignatureField);
      FilterCount(init);
    }
  }

  lemma {:induction false} CountZeroIffNone(fields: seq<FormField>)
    ensures CountSignatureFields(fields) == 0 <==> forall i :: 0 <= i < |fields| ==> !IsSignatureField(fields[i])
  {
    if fields != [] {
      var init := fields[..|fields| - 1];
      CountZeroIffNone(init);
      assert forall i :: 0 <= i < |init| ==> init[i] == fields[i];
    }
  }

  /** A readable form gives the number of `/Sig` fields, found exactly when
      there is one, and one detail per signature field naming it, in field
      order; a form without one gives an empty result. */
  lemma DetectFields(fields: seq<FormField>)
    ensures var r := Detect(Fields(fields));
      && r.count == CountSignatureFields(fields)
      && (r.found <==> exists i :: 0 <= i < |fields| && IsSignatureField(fields[i]))
      && (!r.found ==> r == DigitalResult(false, 0, []))
      && |r.details| == r.count
      && IsSubsequence(Filter(fields, IsSignatureField), fields)
      && (r.found ==> forall k :: 0 <= k < |r.details| ==>
            r.details[k] == Detail(Filter(fields, IsSignatureField)[k]))
      && (forall f :: f in Filter(fields, IsSignatureField) <==> f in fields && IsSignatureField(f))
  {
    FilterCount(fields);
    CountZeroIffNone(fields);
    FilterIsSubsequence(fields, IsSignatureField);
    FilterMembers(fields, IsSignatureField);
  }

  /** A document that cannot be loaded reports no signature and one notice. */
  lemma DetectFailure()
    ensures Detect(LoadFailed) == DigitalResult(false, 0, [NoFormMessage])
  {
  }

  /** Fields without an `FT` entry, or with another field type, are not counted. */
  lemma OtherFieldsNotCounted(fields: seq<FormField>, f: FormField)
    requires !IsSignatureField(f)
    ensures Detect(Fields(fields + [f])) == Detect(Fields(fields))
  {
    FilterAppend(fields, [f], IsSignatureField);
    assert Filter(fields + [f], IsSignatureField) == Filter(fields, IsSignatureField);
  }
}
