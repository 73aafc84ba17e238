/** The optional value used wherever the event manager may have nothing:
 *  a record without an id, a date or time that does not parse, a lookup
 *  that finds no record.
 */
module Wrappers {

  datatype Option<+T> = None | Some(value: T)

}
