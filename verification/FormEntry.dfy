/** cgiFormEntry, as the two form parsers make it and everything else reads it. */
module FormEntry {
  import opened CText

  /** One form entry. `file` holds what an upload's temporary file received; without an upload it is None. */
  datatype Entry = Entry(attr: string, value: string, valueLength: int, fileName: string, contentType: string,
                         file: Option<string>)
}
