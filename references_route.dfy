/**
 * GET and POST /api/references: listing the references, and creating one
 * from an uploaded PDF. Parsing the file name is a parameter of the model.
 */
module ReferencesRoute {
  import opened Wrappers
  import opened BlobStorage

  /** The uploaded file: its name and its bytes. */
  datatype UploadedFile = UploadedFile(name: string, content: seq<byte>)

  /** What parsing a file name can recover. */
  datatype ParsedFilename = ParsedFilename(
    sku: string,
    productName: string,
    description: string,
    languages: seq<string>,
    date: string)

  /** `parseFilename`: `None` for a name it cannot read. */
  type FilenameParser = string -> Option<ParsedFilename>

  datatype Response = BadRequest(error: string) | Created(reference: Reference)

  const DefaultProductName: string := "Produit sans nom"
  const DefaultValidator: string := "Import initial"

  /** `value || fallback` for a form or parsed text that may be missing. */
  function OrElse(value: Option<string>, fallback: string): (r: string)
    ensures value.Some? && value.value != "" ==> r == value.value
    ensures value.None? || value.value == "" ==> r == fallback
  {
    if value.Some? && value.value != "" then value.value else fallback
  }

  /** The `Reference` literal of the POST handler. */
  function NewReference(sku: string, productName: Option<string>, validatedBy: Option<string>,
                        parsed: Option<ParsedFilename>, now: string, blobUrl: string): Reference
  {
    Reference(
      sku,
      OrElse(productName, OrElse(if parsed.Some? then Some(parsed.value.productName) else None, DefaultProductName)),
      OrElse(if parsed.Some? then Some(parsed.value.description) else None, ""),
      if parsed.Some? then parsed.value.languages else [],
      1,
      now,
      OrElse(validatedBy, DefaultValidator),
      Unknown,
      blobUrl)
  }

  /** A created reference is at version 1 with an unknown signature status;
      its product name is the form's, else the parsed one, else the default;
      its description and languages are the parsed ones or empty; its
      validator is the form's or the default. */
  lemma NewReferenceDefaults(sku: string, productName: Option<string>, validatedBy: Option<string>,
                             parsed: Option<ParsedFilename>, now: string, blobUrl: string)
    ensures var r := NewReference(sku, productName, validatedBy, parsed, now, blobUrl);
      && r.sku == sku && r.blobUrl == blobUrl && r.lastValidatedAt == now
      && r.currentVersion == 1 && r.signatureStatus == Unknown
      && (productName.Some? && productName.value != "" ==> r.productName == productName.value)
      && (productName.None? || productName.value == "" ==>
            if parsed.Some? && parsed.value.productName != "" then r.productName == parsed.value.productName
            else r.productName == DefaultProductName)
      && r.description == (if parsed.Some? then parsed.value.description else "")
      && r.languages == (if parsed.Some? then parsed.value.languages else [])
      && (validatedBy.Some? && validatedBy.value != "" ==> r.validatedBy == validatedBy.value)
      && (validatedBy.None? || validatedBy.value == "" ==> r.validatedBy == DefaultValidator)
  {
  }

  /** `GET /api/references`. */
  method Get(store: BlobStore, now: string) returns (refs: seq<Reference>)
    ensures refs == StoredReferences(store.metadata)
  {
    refs := store.GetReferences(now);
  }

  /** `POST /api/references`: without a file or a SKU nothing is stored;
      otherwise the PDF becomes the SKU's current PDF, and the new reference,
      pointing at it, is upserted into the store. The clock is read three
      times: for the reference's `lastValidatedAt` (`validatedAt`), for the
      fallback of `getMetadata` (`readAt`) and for the stamp `saveMetadata`
      writes (`savedAt`). */
  method Post(store: BlobStore, file: Option<UploadedFile>, sku: Option<string>, productName: Option<string>,
              validatedBy: Option<string>, parse: FilenameParser,
              validatedAt: string, readAt: string, savedAt: string) returns (resp: Response)
    modifies store
    ensures file.None? || sku.None? || sku.value == "" ==>
              resp == BadRequest("file and sku are required")
              && store.files == old(store.files) && store.metadata == old(store.metadata)
    ensures file.Some? && sku.Some? && sku.value != "" ==>
              && resp == Created(NewReference(sku.value, productName, validatedBy, parse(file.value.name), validatedAt,
                                              store.Url(CurrentPath(sku.value))))
              && store.files == old(store.files)[CurrentPath(sku.value) := file.value.content]
              && store.metadata == Stored(Upsert(StoredReferences(old(store.metadata)), resp.reference), savedAt)
  {
    if file.None? || sku.None? || sku.value == "" {
      return BadRequest("file and sku are required");
    }
    var blobUrl := store.UploadReferencePdf(sku.value, file.value.content, file.value.name);
    var parsed := parse(file.value.name);
    var ref := NewReference(sku.value, productName, validatedBy, parsed, validatedAt, blobUrl);
    store.AddReference(ref, readAt, savedAt);
    resp := Created(ref);
  }
}
