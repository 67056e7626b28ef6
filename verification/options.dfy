/** Presence-tagged values. The scraper reads every page field through a DOM
    query that may match nothing, and JavaScript yields `undefined` for an
    array index past the end; both become `None` here. */
module Options {

  datatype Option<+T> = None | Some(value: T)
}
