/** The two children of a node. */
module Sides {
  datatype Side = L | R {
    function Flip(): Side { if this == L then R else L }
  }
}
