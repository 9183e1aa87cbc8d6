/**
 * The shapes of the PokeAPI REST list responses the list views read:
 * `{ count, next, previous, results: [{ name, url }] }`.
 */
module PokeApi {
  import opened Js

  /** One list entry: a name and the URL of its detail resource. */
  datatype NamedApiResource = NamedApiResource(name: string, url: string)

  /** A page of a paginated list; `next`/`previous` are the neighbouring pages' URLs, or null. */
  datatype ResourceList = ResourceList(
    count: nat,
    next: Option<string>,
    previous: Option<string>,
    results: seq<NamedApiResource>)

  function ResourceName(r: NamedApiResource): string {
    r.name
  }
}
