/**
 * The reference store kept in blob storage: one metadata document listing the
 * references, and the PDF files under per-SKU paths.
 *
 * The blob service is modelled as a map from path names to contents; a blob's
 * public URL is a fixed prefix followed by its path name. Clocks are
 * parameters: `now` is the ISO-8601 timestamp `new Date().toISOString()`
 * would give. An operation that reads the clock more than once takes one
 * parameter per reading (`readAt` for the fallback of `getMetadata`, `savedAt`
 * for the stamp `saveMetadata` writes), so no two readings are assumed equal.
 */
module BlobStorage {
  import opened Wrappers
  import opened JsString
  import opened SeqUtil

  datatype SignatureStatus = SignedDigital | SignedHandwritten | NotSigned | Unknown

  /** `Reference`: a validated proof that later proofs are compared against. */
  datatype Reference = Reference(
    sku: string,
    productName: string,
    description: string,
    languages: seq<string>,
    currentVersion: nat,
    lastValidatedAt: string,
    validatedBy: string,
    signatureStatus: SignatureStatus,
    blobUrl: string)

  /** `references.findIndex((r) => r.sku === sku)`: the first position holding
      that SKU, or -1. */
  function FindIndex(refs: seq<Reference>, sku: string): (k: int)
    ensures -1 <= k < |refs|
    ensures k == -1 <==> forall i :: 0 <= i < |refs| ==> refs[i].sku != sku
    ensures k >= 0 ==> refs[k].sku == sku && forall i :: 0 <= i < k ==> refs[i].sku != sku
  {
    if refs == [] then -1
    else if refs[0].sku == sku then 0
    else
      var k := FindIndex(refs[1..], sku);
      if k == -1 then -1 else k + 1
  }

  /** `references.find((r) => r.sku === sku) || null`. */
  function Find(refs: seq<Reference>, sku: string): (r: Option<Reference>)
    ensures r.None? <==> forall i :: 0 <= i < |refs| ==> refs[i].sku != sku
    ensures r.Some? ==> exists k :: 0 <= k < |refs| && r.value == refs[k] && refs[k].sku == sku &&
                                    forall i :: 0 <= i < k ==> refs[i].sku != sku
  {
    var k := FindIndex(refs, sku);
    if k >= 0 then Some(refs[k]) else None
  }

  /** The first position holding a SKU is the one `FindIndex` answers. */
  lemma {:induction false} FirstIndexIsFound(refs: seq<Reference>, sku: string, k: nat)
    requires k < |refs| && refs[k].sku == sku && forall i :: 0 <= i < k ==> refs[i].sku != sku
    ensures FindIndex(refs, sku) == k
  {
    if k > 0 {
      assert refs[0].sku != sku;
      assert forall i :: 0 <= i < k - 1 ==> refs[1..][i] == refs[i + 1];
      FirstIndexIsFound(refs[1..], sku, k - 1);
    }
  }

  /** The list after `addReference(ref)`: the first entry with the same SKU is
      replaced, or `ref` is appended. */
  function Upsert(refs: seq<Reference>, ref: Reference): seq<Reference> {
    var k := FindIndex(refs, ref.sku);
    if k >= 0 then refs[k := ref] else refs + [ref]
  }

  /** The list after `deleteReference(sku)`. */
  function RemoveSku(refs: seq<Reference>, sku: string): seq<Reference> {
    Filter(refs, (r: Reference) => r.sku != sku)
  }

  predicate UniqueSkus(refs: seq<Reference>) {
    forall i, j :: 0 <= i < j < |refs| ==> refs[i].sku != refs[j].sku
  }

  /** A new SKU is appended, leaving every earlier entry where it was; a known
      SKU has its first entry replaced in place, leaving the length and every
      other position as they were. */
  lemma UpsertShape(refs: seq<Reference>, ref: Reference)
    ensures (forall i :: 0 <= i < |refs| ==> refs[i].sku != ref.sku) ==>
              && |Upsert(refs, ref)| == |refs| + 1
              && Upsert(refs, ref)[|refs|] == ref
              && Upsert(refs, ref)[..|refs|] == refs
    ensures forall k :: 0 <= k < |refs| && refs[k].sku == ref.sku && (forall i :: 0 <= i < k ==> refs[i].sku != ref.sku) ==>
              && |Upsert(refs, ref)| == |refs|
              && Upsert(refs, ref)[k] == ref
              && forall i :: 0 <= i < |refs| && i != k ==> Upsert(refs, ref)[i] == refs[i]
  {
    var u := Upsert(refs, ref);
    if FindIndex(refs, ref.sku) == -1 {
      assert u == refs + [ref];
      assert u[..|refs|] == refs;
    }
    forall k | 0 <= k < |refs| && refs[k].sku == ref.sku && (forall i :: 0 <= i < k ==> refs[i].sku != ref.sku)
      ensures |u| == |refs| && u[k] == ref && forall i :: 0 <= i < |refs| && i != k ==> u[i] == refs[i]
    {
      FirstIndexIsFound(refs, ref.sku, k);
      assert u == refs[k := ref];
    }
  }

  /** After an upsert the SKU finds the new reference, and every other SKU
      finds what it found before. */
  lemma FindAfterUpsert(refs: seq<Reference>, ref: Reference, sku: string)
    ensures Find(Upsert(refs, ref), ref.sku) == Some(ref)
    ensures sku != ref.sku ==> Find(Upsert(refs, ref), sku) == Find(refs, sku)
  {
    var k := FindIndex(refs, ref.sku);
    var u := Upsert(refs, ref);
    var n := if k >= 0 then k else |refs|;
    assert forall i :: 0 <= i < n ==> u[i] == refs[i];
    FirstIndexIsFound(u, ref.sku, n);
    if sku != ref.sku {
      FindOtherAfterUpsert(refs, ref, sku);
    }
  }

  lemma FindOtherAfterUpsert(refs: seq<Reference>, ref: Reference, sku: string)
    requires sku != ref.sku
    ensures FindIndex(Upsert(refs, ref), sku) == FindIndex(refs, sku)
  {
    var u := Upsert(refs, ref);
    var j := FindIndex(refs, sku);
    assert forall i :: 0 <= i < |u| ==> u[i] == ref || (i < |refs| && u[i] == refs[i]);
    if j >= 0 {
      FirstIndexIsFound(u, sku, j);
    }
  }

  /** An upsert keeps the SKUs of a list distinct. */
  lemma UpsertKeepsUnique(refs: seq<Reference>, ref: Reference)
    requires UniqueSkus(refs)
    ensures UniqueSkus(Upsert(refs, ref))
  {
    var k := FindIndex(refs, ref.sku);
    var u := Upsert(refs, ref);
    forall i, j | 0 <= i < j < |u| ensures u[i].sku != u[j].sku {
      if k >= 0 {
        if i == k {
          assert u[j] == refs[j];
          assert refs[k].sku != refs[j].sku;
        } else if j == k {
          assert u[i] == refs[i];
          assert refs[i].sku != refs[k].sku;
        } else {
          assert u[i] == refs[i] && u[j] == refs[j];
        }
      } else if j == |refs| {
        assert u[i] == refs[i];
      } else {
        assert u[i] == refs[i] && u[j] == refs[j];
      }
    }
  }

  /** Deleting a SKU removes every entry with it and keeps every other entry,
      in order, each as many times as it occurred. */
  lemma RemoveSkuExact(refs: seq<Reference>, sku: string)
    ensures forall r :: r in RemoveSku(refs, sku) <==> r in refs && r.sku != sku
    ensures IsSubsequence(RemoveSku(refs, sku), refs)
    ensures Find(RemoveSku(refs, sku), sku) == None
    ensures forall r :: multiset(RemoveSku(refs, sku))[r] == if r.sku != sku then multiset(refs)[r] else 0
  {
    var p := (r: Reference) => r.sku != sku;
    FilterMembers(refs, p);
    FilterIsSubsequence(refs, p);
    FilterCount(refs, p);
    var d := RemoveSku(refs, sku);
    forall i | 0 <= i < |d| ensures d[i].sku != sku {
      assert d[i] in d;
    }
  }

  /** `metadata.json` as the blob service holds it: absent, unreadable (the
      fetch or the JSON parse fails), or a document. */
  datatype StoredMetadata = Missing | Unreadable | Stored(references: seq<Reference>, updatedAt: string)

  /** The references `getMetadata` yields: none unless a document can be read. */
  function StoredReferences(s: StoredMetadata): seq<Reference> {
    if s.Stored? then s.references else []
  }

  /** `MetadataStore`: the metadata document as the code holds and edits it. */
  class Metadata {
    var references: seq<Reference>
    var updatedAt: string

    constructor(references: seq<Reference>, updatedAt: string)
      ensures this.references == references && this.updatedAt == updatedAt
    {
      this.references := references;
      this.updatedAt := updatedAt;
    }

    /** The body of `addReference`: `references[existing] = ref` or `push(ref)`. */
    method Put(ref: Reference)
      modifies this
      ensures references == Upsert(old(references), ref) && updatedAt == old(updatedAt)
    {
      var existing := FindIndex(references, ref.sku);
      if existing >= 0 {
        references := references[existing := ref];
      } else {
        references := references + [ref];
      }
    }

    /** The body of `deleteReference`: `references = references.filter(...)`. */
    method Remove(sku: string)
      modifies this
      ensures references == RemoveSku(old(references), sku) && updatedAt == old(updatedAt)
    {
      references := Filter(references, (r: Reference) => r.sku != sku);
    }
  }

  const MetadataPath: string := "metadata.json"

  /** `references/<sku>/`: where every file of a reference lives. */
  function ReferenceFolder(sku: string): string {
    "references/" + sku + "/"
  }

  /** The path of a reference's current PDF. */
  function CurrentPath(sku: string): string {
    ReferenceFolder(sku) + "current.pdf"
  }

  /** The path a reference's PDF is archived under for a version and a day. */
  function HistoryPath(sku: string, version: nat, date: string): string {
    ReferenceFolder(sku) + "history/v" + Decimal(version) + "_" + date + ".pdf"
  }

  /** The path of an uploaded proof under comparison. */
  function TempPath(id: string): string {
    "temp/" + id + ".pdf"
  }

  /** `now.split("T")[0]`: the calendar day of an ISO timestamp. */
  function DateOf(now: string): (d: string)
    ensures |d| <= |now| && d == now[..|d|] && forall i :: 0 <= i < |d| ==> d[i] != 'T'
    ensures |d| == |now| || now[|d|] == 'T'
  {
    SpanSkipped(now, (c: char) => c != 'T');
    now[..Span(now, (c: char) => c != 'T')]
  }

  /** Distinct SKUs have distinct current PDFs... */
  lemma CurrentPathInjective(a: string, b: string)
    requires CurrentPath(a) == CurrentPath(b)
    ensures a == b
  {
    assert |a| == |b|;
    var n := |"references/"|;
    assert a == CurrentPath(a)[n..n + |a|];
    assert b == CurrentPath(b)[n..n + |b|];
  }

  /** ... an archive never lands on the current PDF of its reference ... */
  lemma ArchiveIsNotCurrent(sku: string, version: nat, date: string)
    ensures HistoryPath(sku, version, date) != CurrentPath(sku)
  {
    var n := |ReferenceFolder(sku)|;
    assert CurrentPath(sku)[n] == 'c';
    assert HistoryPath(sku, version, date)[n] == 'h';
  }

  /** ... and archives of different versions or days never overwrite each other. */
  lemma HistoryPathInjective(sku: string, v1: nat, d1: string, v2: nat, d2: string)
    requires HistoryPath(sku, v1, d1) == HistoryPath(sku, v2, d2)
    ensures v1 == v2 && d1 == d2
  {
    var head := ReferenceFolder(sku) + "history/v";
    var t1 := Decimal(v1) + "_" + (d1 + ".pdf");
    var t2 := Decimal(v2) + "_" + (d2 + ".pdf");
    assert HistoryPath(sku, v1, d1) == head + t1;
    assert HistoryPath(sku, v2, d2) == head + t2;
    assert t1 == (head + t1)[|head|..];
    assert t2 == (head + t2)[|head|..];
    DigitsThenSeparator(Decimal(v1), '_', d1 + ".pdf", Decimal(v2), d2 + ".pdf");
    DecimalInjective(v1, v2);
    assert d1 == (d1 + ".pdf")[..|d1|];
  }

  /** Every file of a reference lies in its folder; uploads under comparison
      do not. */
  lemma FolderHoldsReferenceFiles(sku: string, version: nat, date: string, id: string, other: string)
    ensures ReferenceFolder(sku) <= CurrentPath(sku)
    ensures ReferenceFolder(sku) <= HistoryPath(sku, version, date)
    ensures !(ReferenceFolder(other) <= TempPath(id))
  {
    assert TempPath(id)[0] == 't';
    assert ReferenceFolder(other)[0] == 'r';
  }

  /** The files left after deleting every blob listed under a prefix. */
  function WithoutPrefix(files: map<string, seq<byte>>, prefix: string): map<string, seq<byte>> {
    map p | p in files && !(prefix <= p) :: files[p]
  }

  /** The blob service. */
  class BlobStore {
    var metadata: StoredMetadata
    var files: map<string, seq<byte>>
    const urlPrefix: string

    constructor(urlPrefix: string)
      ensures metadata == Missing && files == map[] && this.urlPrefix == urlPrefix
    {
      metadata := Missing;
      files := map[];
      this.urlPrefix := urlPrefix;
    }

    /** The public URL of a blob. */
    function Url(path: string): string
      reads this
    {
      urlPrefix + path
    }

    /** `getMetadata`: the stored document, or an empty one dated now when there
        is none or it cannot be read. */
    method GetMetadata(now: string) returns (m: Metadata)
      ensures fresh(m)
      ensures m.references == StoredReferences(metadata)
      ensures m.updatedAt == (if metadata.Stored? then metadata.updatedAt else now)
    {
      if metadata.Stored? {
        m := new Metadata(metadata.references, metadata.updatedAt);
      } else {
        m := new Metadata([], now);
      }
    }

    /** `saveMetadata`: stamps the document, then writes it. */
    method SaveMetadata(m: Metadata, now: string)
      modifies this, m
      ensures m.updatedAt == now && m.references == old(m.references)
      ensures metadata == Stored(m.references, now) && files == old(files)
    {
      m.updatedAt := now;
      metadata := Stored(m.references, m.updatedAt);
    }

    /** `getReferences`. */
    method GetReferences(now: string) returns (refs: seq<Reference>)
      ensures refs == StoredReferences(metadata)
    {
      var m := GetMetadata(now);
      refs := m.references;
    }

    /** `getReference`: the first reference with the SKU, if any. */
    method GetReference(sku: string, now: string) returns (r: Option<Reference>)
      ensures r == Find(StoredReferences(metadata), sku)
    {
      var m := GetMetadata(now);
      r := Find(m.references, sku);
    }

    /** `addReference`. An unreadable document counts as empty, so it is
        replaced by one holding `ref` alone. The clock is read when the document
        is missing (`readAt`) and again when it is saved (`savedAt`); only the
        second reading is stored. */
    method AddReference(ref: Reference, readAt: string, savedAt: string)
      modifies this
      ensures metadata == Stored(Upsert(StoredReferences(old(metadata)), ref), savedAt)
      ensures files == old(files)
    {
      var m := GetMetadata(readAt);
      m.Put(ref);
      SaveMetadata(m, savedAt);
    }

    /** Deletes every blob whose path starts with `prefix`, one at a time. */
    method DeleteListed(prefix: string)
      modifies this
      ensures files == WithoutPrefix(old(files), prefix) && metadata == old(metadata)
    {
      var listed := set p | p in files && prefix <= p;
      while listed != {}
        invariant listed <= files.Keys
        invariant forall p :: p in listed ==> prefix <= p
        invariant forall p :: p in files <==> p in old(files) && (!(prefix <= p) || p in listed)
        invariant forall p :: p in files ==> files[p] == old(files)[p]
        invariant metadata == old(metadata)
        decreases |listed|
      {
        var p :| p in listed;
        files := map q | q in files && q != p :: files[q];
        listed := listed - {p};
      }
    }

    /** `deleteReference`: drops every entry with the SKU from the document,
        then every blob in the reference's folder. The clock readings are as in
        `AddReference`. */
    method DeleteReference(sku: string, readAt: string, savedAt: string)
      modifies this
      ensures metadata == Stored(RemoveSku(StoredReferences(old(metadata)), sku), savedAt)
      ensures files == WithoutPrefix(old(files), ReferenceFolder(sku))
    {
      var m := GetMetadata(readAt);
      m.Remove(sku);
      SaveMetadata(m, savedAt);
      DeleteListed(ReferenceFolder(sku));
    }

    /** `uploadReferencePdf`: the file becomes the reference's current PDF,
        whatever its own name. */
    method UploadReferencePdf(sku: string, file: seq<byte>, filename: string) returns (url: string)
      modifies this
      ensures files == old(files)[CurrentPath(sku) := file] && metadata == old(metadata)
      ensures url == Url(CurrentPath(sku))
    {
      files := files[CurrentPath(sku) := file];
      url := Url(CurrentPath(sku));
    }

    /** `archiveCurrentPdf`: copies the current PDF under its history path for
        the day; does nothing when there is no current PDF. */
    method ArchiveCurrentPdf(sku: string, version: nat, now: string)
      modifies this
      ensures CurrentPath(sku) in old(files) ==>
                files == old(files)[HistoryPath(sku, version, DateOf(now)) := old(files)[CurrentPath(sku)]]
      ensures CurrentPath(sku) !in old(files) ==> files == old(files)
      ensures metadata == old(metadata)
    {
      if CurrentPath(sku) !in files {
        return;
      }
      var data := files[CurrentPath(sku)];
      var date := DateOf(now);
      files := files[HistoryPath(sku, version, date) := data];
    }

    /** `uploadTempPdf`. */
    method UploadTempPdf(id: string, file: seq<byte>) returns (url: string)
      modifies this
      ensures files == old(files)[TempPath(id) := file] && metadata == old(metadata)
      ensures url == Url(TempPath(id))
    {
      files := files[TempPath(id) := file];
      url := Url(TempPath(id));
    }

    /** `deleteTempPdf`: deletes every blob listed under the upload's path. */
    method DeleteTempPdf(id: string)
      modifies this
      ensures files == WithoutPrefix(old(files), TempPath(id)) && metadata == old(metadata)
    {
      DeleteListed(TempPath(id));
    }
  }

  /** After `addReference(ref)`, whatever the stored list, `getReference(ref.sku)`
      answers `ref`; SKUs that were distinct stay distinct. */
  lemma AddThenGet(before: StoredMetadata, ref: Reference, now: string, after: StoredMetadata)
    requires after == Stored(Upsert(StoredReferences(before), ref), now)
    ensures Find(StoredReferences(after), ref.sku) == Some(ref)
    ensures UniqueSkus(StoredReferences(before)) ==> UniqueSkus(StoredReferences(after))
  {
    FindAfterUpsert(StoredReferences(before), ref, ref.sku);
    if UniqueSkus(StoredReferences(before)) {
      UpsertKeepsUnique(StoredReferences(before), ref);
    }
  }

  /** After `deleteReference(sku)` the SKU is gone from the document, and so
      are its current PDF and every archive of it; uploads under comparison
      are kept. */
  lemma DeleteThenGone(before: StoredMetadata, files: map<string, seq<byte>>, sku: string, now: string,
                       version: nat, date: string, id: string)
    ensures Find(RemoveSku(StoredReferences(before), sku), sku) == None
    ensures CurrentPath(sku) !in WithoutPrefix(files, ReferenceFolder(sku))
    ensures HistoryPath(sku, version, date) !in WithoutPrefix(files, ReferenceFolder(sku))
    ensures TempPath(id) in files ==> TempPath(id) in WithoutPrefix(files, ReferenceFolder(sku))
  {
    RemoveSkuExact(StoredReferences(before), sku);
    FolderHoldsReferenceFiles(sku, version, date, id, sku);
  }
}
