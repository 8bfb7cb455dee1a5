/**
 * The byte copy of intro-exercises/cptrs-ex01-any_copy/any_copy.c. Both
 * buffers are byte arrays; the source buffer is read only.
 */
module AnyCopy {
  import opened Common

  /** any_copy: the first n bytes of `dest` become those of `src`; the rest of `dest` and all of `src` stay as they were. */
  method Copy(dest: array<byte>, src: array<byte>, n: nat)
    requires n <= dest.Length && n <= src.Length
    modifies dest
    ensures dest[..n] == old(src[..n])
    ensures dest[n..] == old(dest[n..])
  {
    for i := 0 to n
      invariant dest[..i] == old(src[..i]) && src[..] == old(src[..])
      invariant dest[i..] == old(dest[i..])
    {
      dest[i] := src[i];
      assert dest[..i + 1] == dest[..i] + [dest[i]];
      assert old(src[..i + 1]) == old(src[..i]) + [old(src[i])];
    }
  }

  /** The character copy of the source's driver: "Hello, World" with its NUL, 13 bytes, is copied whole. */
  method HelloExample() returns (copy: seq<byte>)
    ensures copy == [72, 101, 108, 108, 111, 44, 32, 87, 111, 114, 108, 100, 0]
  {
    var src := new byte[] [72, 101, 108, 108, 111, 44, 32, 87, 111, 114, 108, 100, 0];
    var dest := new byte[13];
    Copy(dest, src, 13);
    copy := dest[..];
    assert copy == dest[..13];
  }
}
