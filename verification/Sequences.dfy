/** A piece of a sequence replaced, as memcpy does it. */
module Sequences {

  /** s with its elements pos .. pos + |src| replaced by src. */
  function Spliced<T>(s: seq<T>, pos: nat, src: seq<T>): (r: seq<T>)
    requires pos + |src| <= |s|
    ensures |r| == |s|
  {
    s[..pos] + src + s[pos + |src|..]
  }
}
