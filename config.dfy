/** The personal configuration the generator merges into the remote
    document, as the generator finds it in self.personal_config after
    loading: values of the environment are already decoded. */
module Config {

  /** An element of a candidate list: a string, or any other JSON value
      (which every merge step skips). */
  datatype Item = Str(s: string) | NonStr

  /** A certificate field (mitm.passphrase or mitm.p12): a scalar, held as
      its str() rendering, or a list, held as the str() renderings of its
      elements. A missing key is Scalar(""). */
  datatype CertField = Scalar(s: string) | List(elems: seq<string>)

  /** The body of a custom section: a string, a list of strings, or
      anything else (which contributes no body line). */
  datatype CustomBody = Body(s: string) | Lines(lines: seq<string>) | Other

  /** An entry of global_replacements: a dict holding both "search" and
      "replace", or anything else (which is skipped). */
  datatype Replacement = Pair(search: string, replace: string) | Malformed

  datatype PersonalConfig = PersonalConfig(
    passphrase: CertField,
    p12: CertField,
    rewriteLocal: seq<Item>,
    rewriteRemote: seq<Item>,
    serverRemote: seq<Item>,
    dns: seq<Item>,
    filterRemote: seq<Item>,
    filterLocal: seq<Item>,
    policies: seq<Item>,
    customSections: seq<(string, CustomBody)>,
    replacements: seq<Replacement>)

  /** A configuration with every key missing. */
  const Empty := PersonalConfig(Scalar(""), Scalar(""), [], [], [], [], [], [], [], [], [])
}
