/** The result shapes shared by every module of the model. */
module Wrappers {

  /** A value, or nothing: Qt's null values, missing map entries and failed conversions. */
  datatype Option<+T> = None | Some(value: T) {
    function GetOr(default: T): T {
      match this
      case Some(v) => v
      case None => default
    }
  }
}
