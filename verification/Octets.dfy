/** Strings of bytes, as the string functions of src/core/dfs_string.c take them. */
module Octets {

  type Bytes = seq<int>

  ghost predicate AreBytes(s: Bytes) {
    forall i :: 0 <= i < |s| ==> 0 <= s[i] < 256
  }
}
