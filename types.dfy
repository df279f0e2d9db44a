/** Fixed-width integers, the Option/Result wrappers and file-system paths
    shared by every other module of the model. */
module Types {

  const U16_MOD: int := 0x1_0000
  const U32_MOD: int := 0x1_0000_0000
  const U64_MOD: int := 0x1_0000_0000_0000_0000
  const U128_MOD: int := 0x1_0000_0000_0000_0000_0000_0000_0000_0000

  type byte = x: int | 0 <= x < 256
  type u16 = x: int | 0 <= x < U16_MOD
  type u32 = x: int | 0 <= x < U32_MOD
  type u64 = x: int | 0 <= x < U64_MOD
  /** Content hashes (resource hashes and block hashes) are 128-bit values. */
  type u128 = x: int | 0 <= x < U128_MOD

  /** The truncating cast `n as u32` of a `usize` index: indices below 2^32
      are kept, larger ones lose their high bits. */
  function AsU32(n: nat): (r: u32)
    ensures n < U32_MOD ==> r == n
    decreases n
  {
    if n < U32_MOD then n else AsU32(n - U32_MOD)
  }

  /** The cast keeps exactly the residue of `n` modulo 2^32. */
  lemma {:induction false} AsU32IsMod(n: nat)
    ensures AsU32(n) == n % U32_MOD
    decreases n
  {
    if n >= U32_MOD {
      AsU32IsMod(n - U32_MOD);
      assert (n - U32_MOD) % U32_MOD == n % U32_MOD;
    }
  }

  datatype Option<+T> = None | Some(value: T)

  datatype Result<+T, +E> = Success(value: T) | Failure(error: E)

  /** Paths are Unix path strings; `Path::display` is the identity on them. */
  type Path = string

  /** `PathBuf::join`: an absolute name replaces the directory, otherwise the
      name is appended after one separator. */
  function Join(dir: Path, name: string): Path {
    if |name| > 0 && name[0] == '/' then name
    else if |dir| == 0 || dir[|dir| - 1] == '/' then dir + name
    else dir + "/" + name
  }

  /** An absolute name is the result; otherwise the result starts with the
      directory, ends with the name and adds at most one separator. */
  lemma JoinShape(dir: Path, name: string)
    ensures |name| > 0 && name[0] == '/' ==> Join(dir, name) == name
    ensures !(|name| > 0 && name[0] == '/') ==>
              var p := Join(dir, name);
              && |dir| + |name| <= |p| <= |dir| + |name| + 1
              && p[..|dir|] == dir && p[|p| - |name|..] == name
  {
    if !(|name| > 0 && name[0] == '/') && !(|dir| == 0 || dir[|dir| - 1] == '/') {
      var p := dir + "/" + name;
      assert p[|p| - |name|..] == name;
    }
  }
}
