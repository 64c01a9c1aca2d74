/** NUL-terminated strings in memory, of narrow or wide characters. */
module CStrings {
  /** The characters before the first `nul`. */
  function Text<T(==)>(mem: seq<T>, nul: T): (s: seq<T>)
    ensures s <= mem && nul !in s
    ensures |s| < |mem| <==> nul in mem
    ensures |s| < |mem| ==> mem[|s|] == nul
  {
    if mem == [] || mem[0] == nul then [] else [mem[0]] + Text(mem[1..], nul)
  }

  /** Memory that starts with `s` and a terminator holds the string `s`. */
  lemma {:induction false} TextIs<T>(s: seq<T>, mem: seq<T>, nul: T)
    requires nul !in s && |s| < |mem| && s == mem[..|s|] && mem[|s|] == nul
    ensures Text(mem, nul) == s
  {
    if s != [] {
      assert mem[0] == s[0] && mem[1..][..|s| - 1] == s[1..];
      TextIs(s[1..], mem[1..], nul);
    }
  }
}
