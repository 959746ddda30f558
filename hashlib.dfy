/**
 * The part of Python's hashlib that hash.py relies on, as an abstract
 * library: which constructors exist, each algorithm's fixed digest size,
 * and the algorithm's output stream as an uninterpreted function of the
 * bytes an accumulator has absorbed. Nothing here implements a hash.
 */
module HashLib {
  import Hex

  /**
   * `names` are the constructors `getattr(hashlib, name)` finds;
   * `digestSize(name)` is `digest_size`; `output(name, absorbed, i)` is byte
   * `i` of the algorithm's output on `absorbed` (for a fixed-size algorithm
   * only the first `digestSize(name)` bytes are ever taken; for an
   * extendable-output algorithm any prefix can be taken).
   */
  datatype Library = Library(
    names: set<string>,
    digestSize: string -> nat,
    output: (string, seq<bv8>, nat) -> Hex.Byte)

  /** The first `n` output bytes of `name` on the absorbed bytes. */
  function Output(lib: Library, name: string, absorbed: seq<bv8>, n: nat): (r: seq<Hex.Byte>)
    ensures |r| == n
    ensures forall i :: 0 <= i < n ==> r[i] == lib.output(name, absorbed, i)
  {
    seq<Hex.Byte>(n, (i: int) requires 0 <= i < n => lib.output(name, absorbed, i))
  }

  /** `hlib.hexdigest()`: the fixed-size digest as hex text. */
  function HexDigest(lib: Library, name: string, absorbed: seq<bv8>): string {
    Hex.Encode(Output(lib, name, absorbed, lib.digestSize(name)))
  }

  /** `hlib.hexdigest(length)`: an extendable-output digest of `length` bytes as hex text. */
  function HexDigestOfLength(lib: Library, name: string, absorbed: seq<bv8>, length: nat): string {
    Hex.Encode(Output(lib, name, absorbed, length))
  }

  /** Python's `sub in s` on strings: `sub` occurs somewhere in `s`. */
  predicate Contains(s: string, sub: string)
    decreases |s|
  {
    (|sub| <= |s| && s[..|sub|] == sub) || (s != [] && Contains(s[1..], sub))
  }

  /** `sub` occurs in `s` starting at index `i`. */
  predicate OccursAt(s: string, sub: string, i: nat) {
    i + |sub| <= |s| && s[i..i + |sub|] == sub
  }

  /** An occurrence at `i + 1` in `s` is an occurrence at `i` in `s[1..]`. */
  lemma OccursShift(s: string, sub: string, i: nat)
    requires s != []
    ensures OccursAt(s, sub, i + 1) <==> OccursAt(s[1..], sub, i)
  {
    if i + 1 + |sub| <= |s| {
      assert s[1..][i..i + |sub|] == s[i + 1..i + 1 + |sub|];
    }
  }

  /** Contains agrees with the definition of a substring occurrence, in both directions. */
  lemma {:induction false} ContainsIffOccurs(s: string, sub: string)
    ensures Contains(s, sub) <==> exists i: nat :: OccursAt(s, sub, i)
  {
    if |sub| <= |s| && s[..|sub|] == sub {
      assert OccursAt(s, sub, 0);
    } else if s != [] {
      ContainsIffOccurs(s[1..], sub);
      if Contains(s[1..], sub) {
        var i: nat :| OccursAt(s[1..], sub, i);
        OccursShift(s, sub, i);
      } else {
        forall i: nat
          ensures !OccursAt(s, sub, i)
        {
          if i > 0 {
            OccursShift(s, sub, i - 1);
          }
        }
      }
    }
  }

  /** The naming rule of hash.py:456 for extendable-output algorithms. */
  predicate IsVariableLength(name: string) {
    Contains(name, "shake")
  }

  /**
   * `hash_processing(name, 'hex', hlib)`: a name containing "shake" is
   * finalised with the configured length, every other name with the fixed size.
   */
  function Finalise(lib: Library, name: string, absorbed: seq<bv8>, length: nat): (hex: string)
    ensures Hex.IsLowerHex(hex)
    ensures IsVariableLength(name) ==> |hex| == 2 * length
    ensures !IsVariableLength(name) ==> |hex| == 2 * lib.digestSize(name)
    ensures Hex.Decode(hex) == Output(lib, name, absorbed, if IsVariableLength(name) then length else lib.digestSize(name))
  {
    var n := if IsVariableLength(name) then length else lib.digestSize(name);
    var hex := if IsVariableLength(name) then HexDigestOfLength(lib, name, absorbed, length)
               else HexDigest(lib, name, absorbed);
    Hex.DecodeEncode(Output(lib, name, absorbed, n));
    hex
  }

  /**
   * The "Hex Length" column of the `--available` listing (hash.py:352,
   * hash.py:357): `2 * digest_size` for fixed names, `2 * length` for "shake" names.
   */
  function ListedHexLength(lib: Library, name: string, length: nat): nat {
    if !Contains(name, "shake") then 2 * lib.digestSize(name) else 2 * length
  }

  /** The listed hex length is the length of every digest hash_check produces. */
  lemma ListedHexLengthIsExact(lib: Library, name: string, absorbed: seq<bv8>, length: nat)
    ensures |Finalise(lib, name, absorbed, length)| == ListedHexLength(lib, name, length)
  {
  }

  /** For an extendable-output name, a different requested length gives a different digest. */
  lemma LengthChangesDigest(lib: Library, name: string, absorbed: seq<bv8>, l1: nat, l2: nat)
    requires IsVariableLength(name) && l1 != l2
    ensures Finalise(lib, name, absorbed, l1) != Finalise(lib, name, absorbed, l2)
  {
  }

  /** A shorter extendable-output digest is a prefix of a longer one. */
  lemma ShorterDigestIsPrefix(lib: Library, name: string, absorbed: seq<bv8>, l1: nat, l2: nat)
    requires IsVariableLength(name) && l1 <= l2
    ensures Finalise(lib, name, absorbed, l1) == Finalise(lib, name, absorbed, l2)[..2 * l1]
  {
    var long := Output(lib, name, absorbed, l2);
    assert Output(lib, name, absorbed, l1) == long[..l1];
    EncodePrefix(long, l1);
  }

  lemma {:induction false} EncodePrefix(bytes: seq<Hex.Byte>, k: nat)
    requires k <= |bytes|
    ensures Hex.Encode(bytes[..k]) == Hex.Encode(bytes)[..2 * k]
  {
    if k > 0 {
      EncodePrefix(bytes[1..], k - 1);
      assert bytes[..k][1..] == bytes[1..][..k - 1];
    }
  }
}
