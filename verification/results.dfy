/** The ways building a phase diagram can fail. */
module Results {
  import opened Entries

  datatype BuildError =
      /** An entry holds an element that has no pure-element reference
          (pymatgen raises `KeyError` from the reference dictionary). */
    | MissingReference(entry: Entry)
      /** The hull backend returned a facet that does not index `dim`
          rows of the hull input (an out-of-range vertex makes the Python
          list lookup of its hull row raise `IndexError`; a facet of the
          wrong length makes numpy raise while filling the facet matrix). */
    | MalformedFacet(facet: seq<nat>)

  datatype Result<T> = Success(value: T) | Failure(error: BuildError)

  datatype Option<T> = None | Some(value: T)
}
