/** The records the content platform returns, reduced to the parts the auditor reads. */
module Content {
  import opened Wrappers
  import opened JsValues

  /** `entry.sys`: the entry's id, the id of its content type, the archive
      timestamp and the per-locale field status (`fieldStatus["*"]["en-US"]`). */
  datatype EntrySys = EntrySys(
    id: string,
    contentType: string,
    archivedAt: Option<string>,
    fieldStatus: map<string, map<string, string>>)

  /** An entry: `sys` plus `fields`, normally an object from field name to an
      object from locale to value, but any JSON value in general. */
  datatype Entry = Entry(sys: EntrySys, fields: Value)

  datatype Asset = Asset(id: string)

  datatype ContentType = ContentType(id: string)

  function EntryId(e: Entry): string { e.sys.id }

  function AssetId(a: Asset): string { a.id }

  function ContentTypeId(ct: ContentType): string { ct.id }

  /** The value `{sys: {type: "Link", linkType, id}}` the platform stores for a reference. */
  function LinkValue(linkType: string, id: string): Value
  {
    Obj([Prop("sys", Obj([Prop("type", Str("Link")), Prop("linkType", Str(linkType)), Prop("id", Str(id))]))])
  }
}
