/**
  * Where the library keeps the files of a book: sharded object directories under the library
  * root, named after the book id. A path is the sequence of its components.
  */
module ManagedLayout {
  import opened Decimals
  import opened Wrappers

  type Path = seq<string>

  datatype BookFormat = Epub | Fb2
  datatype StorageEncoding = Plain | Compressed

  // ---------------------------------------------------------------------------------------
  // Shards
  // ---------------------------------------------------------------------------------------

  const OFFSET_BASIS: nat := 2166136261
  const PRIME: nat := 16777619
  const TWO_32: nat := 0x1_0000_0000

  /** Exclusive or, bit by bit. */
  function Xor(a: nat, b: nat): nat {
    if a == 0 && b == 0 then 0
    else 2 * Xor(a / 2, b / 2) + (if a % 2 == b % 2 then 0 else 1)
  }

  function Times(hash: nat, factor: nat): (product: nat)
    ensures product < TWO_32
  {
    (hash * factor) % TWO_32
  }

  /** The 32-bit FNV-1a hash of a name; products wrap. */
  function ShardHash(name: string): (hash: nat)
    ensures hash < TWO_32
  {
    if name == [] then OFFSET_BASIS
    else Times(Xor(ShardHash(name[..|name| - 1]), name[|name| - 1] as nat), PRIME)
  }

  lemma {:induction false} XorUndoesXor(a: nat, b: nat)
    ensures Xor(Xor(a, b), b) == a
  {
    if a != 0 || b != 0 {
      XorUndoesXor(a / 2, b / 2);
      var rest, bit := Xor(a / 2, b / 2), if a % 2 == b % 2 then 0 else 1;
      assert Xor(a, b) / 2 == rest && Xor(a, b) % 2 == bit;
      assert Xor(rest, b / 2) == a / 2;
    }
  }

  lemma {:induction false} XorStaysBelow(a: nat, b: nat, bits: nat)
    requires a < Power(bits) && b < Power(bits)
    ensures Xor(a, b) < Power(bits)
  {
    if bits > 0 {
      XorStaysBelow(a / 2, b / 2, bits - 1);
    }
  }

  function Power(bits: nat): nat {
    if bits == 0 then 1 else 2 * Power(bits - 1)
  }

  lemma WordBound()
    ensures Power(32) == TWO_32
  {
    assert Power(8) == 0x100;
    assert Power(16) == 0x1_0000;
    assert Power(24) == 0x100_0000;
  }

  /** The inverse of the odd prime among 32-bit factors. */
  const INVERSE: nat := 899433627

  lemma DroppingMultiples(k: int, b: int)
    ensures (k * TWO_32 + b) % TWO_32 == b % TWO_32
  {
  }

  lemma TimesIsReversible(hash: nat)
    requires hash < TWO_32
    ensures Times(Times(hash, PRIME), INVERSE) == hash
  {
    var x := hash * PRIME;
    var q, r := x / TWO_32, x % TWO_32;
    DroppingMultiples(q * INVERSE, r * INVERSE);
    DroppingMultiples(hash * 3513497, hash);
  }

  /** Names that differ in their last character only never share a hash. */
  lemma LastCharacterMatters(name: string, a: char, b: char)
    ensures ShardHash(name + [a]) == ShardHash(name + [b]) <==> a == b
  {
    var hash := ShardHash(name);
    assert (name + [a])[..|name|] == name && (name + [b])[..|name|] == name;
    WordBound();
    XorStaysBelow(hash, a as nat, 32);
    XorStaysBelow(hash, b as nat, 32);
    TimesIsReversible(Xor(hash, a as nat));
    TimesIsReversible(Xor(hash, b as nat));
    XorIsSymmetric(hash, a as nat);
    XorIsSymmetric(hash, b as nat);
    XorUndoesXor(a as nat, hash);
    XorUndoesXor(b as nat, hash);
  }

  lemma {:induction false} XorIsSymmetric(a: nat, b: nat)
    ensures Xor(a, b) == Xor(b, a)
  {
    if a != 0 || b != 0 {
      XorIsSymmetric(a / 2, b / 2);
    }
  }

  method ComputeBookShardHash(bookFolderName: string) returns (hash: nat)
    ensures hash == ShardHash(bookFolderName)
  {
    hash := OFFSET_BASIS;
    for i := 0 to |bookFolderName|
      invariant hash == ShardHash(bookFolderName[..i])
    {
      assert bookFolderName[..i + 1][..i] == bookFolderName[..i];
      hash := Xor(hash, bookFolderName[i] as nat);
      hash := Times(hash, PRIME);
    }
    assert bookFolderName[..|bookFolderName|] == bookFolderName;
  }

  function HexDigit(d: nat): (c: char)
    requires d < 16
    ensures c != '.'
  {
    "0123456789abcdef"[d]
  }

  /** The byte of the hash that starts at a bit position, as two hexadecimal digits. */
  function ShardBucket(hash: nat, divisor: nat): (bucket: string)
    requires divisor > 0
    ensures |bucket| == 2 && bucket[0] != '.'
  {
    var byte := (hash / divisor) % 256;
    [HexDigit(byte / 16), HexDigit(byte % 16)]
  }

  // ---------------------------------------------------------------------------------------
  // Paths
  // ---------------------------------------------------------------------------------------

  /** The id with at least ten digits. */
  function FolderName(id: nat): (name: string)
    ensures |name| >= 10 && forall i :: 0 <= i < |name| ==> IsDigit(name[i])
  {
    Padded(Decimal(id), 10)
  }

  function ShardDirectory(id: nat): Path {
    var hash := ShardHash(FolderName(id));
    ["Objects", ShardBucket(hash, 1), ShardBucket(hash, 256)]
  }

  function ManagedFileName(format: BookFormat, encoding: StorageEncoding): string {
    if format == Fb2 && encoding == Compressed then "book.fb2.gz"
    else if format == Epub then "book.epub"
    else "book.fb2"
  }

  /** The part of a managed path below the library root. */
  function RelativeBookPath(id: nat, format: BookFormat, encoding: StorageEncoding): Path {
    ShardDirectory(id) + [FolderName(id) + "." + ManagedFileName(format, encoding)]
  }

  function RelativeCoverPath(id: nat, extension: string): Path {
    ShardDirectory(id) + [FolderName(id) + ".cover." + extension]
  }

  function GetManagedBookPath(root: Path, id: int, format: BookFormat, encoding: StorageEncoding): Option<Path> {
    if id <= 0 then None else Some(root + RelativeBookPath(id, format, encoding))
  }

  /** A leading dot of the extension is dropped; what is left may be empty. */
  function GetCoverPath(root: Path, id: int, extension: string): Option<Path> {
    if extension == "" || id <= 0 then None
    else Some(root + RelativeCoverPath(id, if extension[0] == '.' then extension[1..] else extension))
  }

  // ---------------------------------------------------------------------------------------
  // A managed path says whose it is
  // ---------------------------------------------------------------------------------------

  /** The id spelled at the start of the file name, for a path with a file name of its own. */
  function OwnerOf(relative: Path): Option<nat> {
    if |relative| < 4 || DigitPrefix(relative[3]) == "" then None else Some(DigitsValue(DigitPrefix(relative[3])))
  }

  lemma OwnerOfFileName(id: nat, shard: Path, rest: string)
    requires |shard| == 3 && rest != [] && !IsDigit(rest[0])
    ensures OwnerOf(shard + [FolderName(id) + rest]) == Some(id)
  {
    DigitPrefixStopsAt(FolderName(id), rest);
    PaddingCountsNothing(Decimal(id), 10);
    DigitsValueOfDecimal(id);
  }

  /** The owner of a managed file can be read back from its path. */
  lemma OwnerInvertsManagedPaths(id: nat, format: BookFormat, encoding: StorageEncoding, extension: string)
    ensures OwnerOf(RelativeBookPath(id, format, encoding)) == Some(id)
    ensures OwnerOf(RelativeCoverPath(id, extension)) == Some(id)
  {
    var book, cover := "." + ManagedFileName(format, encoding), ".cover." + extension;
    assert FolderName(id) + "." + ManagedFileName(format, encoding) == FolderName(id) + book;
    OwnerOfFileName(id, ShardDirectory(id), book);
    assert FolderName(id) + ".cover." + extension == FolderName(id) + cover;
    OwnerOfFileName(id, ShardDirectory(id), cover);
  }

  /** The book file and the cover of one book never share a path. */
  lemma BookIsNotCover(id: nat, format: BookFormat, encoding: StorageEncoding, extension: string)
    ensures RelativeBookPath(id, format, encoding) != RelativeCoverPath(id, extension)
  {
    var n := |FolderName(id)|;
    var book := RelativeBookPath(id, format, encoding)[3];
    var cover := RelativeCoverPath(id, extension)[3];
    assert book[n + 1] == 'b' && cover[n + 1] == 'c';
  }

  /** Distinct books have distinct managed files, whatever their formats and covers. */
  lemma ManagedPathsAreDistinct(root: Path, a: int, b: int, fa: BookFormat, ea: StorageEncoding, xa: string,
                                fb: BookFormat, eb: StorageEncoding, xb: string)
    requires a > 0 && b > 0 && a != b
    ensures GetManagedBookPath(root, a, fa, ea) != GetManagedBookPath(root, b, fb, eb)
    ensures GetCoverPath(root, a, xa) == GetCoverPath(root, b, xb) ==> GetCoverPath(root, a, xa).None?
    ensures GetManagedBookPath(root, a, fa, ea) != GetCoverPath(root, b, xb)
  {
    var ca := if xa != "" && xa[0] == '.' then xa[1..] else xa;
    var cb := if xb != "" && xb[0] == '.' then xb[1..] else xb;
    OwnerInvertsManagedPaths(a, fa, ea, ca);
    OwnerInvertsManagedPaths(b, fb, eb, cb);
    BelowRoot(root, RelativeBookPath(a, fa, ea), RelativeBookPath(b, fb, eb));
    BelowRoot(root, RelativeCoverPath(a, ca), RelativeCoverPath(b, cb));
    BelowRoot(root, RelativeBookPath(a, fa, ea), RelativeCoverPath(b, cb));
  }

  lemma BelowRoot(root: Path, p: Path, q: Path)
    ensures root + p == root + q ==> p == q
  {
    assert p == (root + p)[|root|..] && q == (root + q)[|root|..];
  }

  predicate IsSafeRelative(p: Path) {
    p != [] && ".." !in p
  }

  /** Stored paths pass the check that later file operations make on them. */
  lemma ManagedPathsAreSafe(id: nat, format: BookFormat, encoding: StorageEncoding, extension: string)
    ensures IsSafeRelative(RelativeBookPath(id, format, encoding))
    ensures IsSafeRelative(RelativeCoverPath(id, extension))
  {
  }

  // ---------------------------------------------------------------------------------------
  // What shards spell
  // ---------------------------------------------------------------------------------------

  function HexDigitValue(c: char): nat {
    if '0' <= c <= '9' then c as nat - '0' as nat
    else if 'a' <= c <= 'f' then c as nat - 'a' as nat + 10
    else 16
  }

  function HexValue(s: string): nat {
    if s == [] then 0 else 16 * HexValue(s[..|s| - 1]) + HexDigitValue(s[|s| - 1])
  }

  lemma HexDigitReadsBack(d: nat)
    requires d < 16
    ensures HexDigitValue(HexDigit(d)) == d
  {
  }

  lemma BucketReadsBack(hash: nat, divisor: nat)
    requires divisor > 0
    ensures HexValue(ShardBucket(hash, divisor)) == (hash / divisor) % 256
  {
    var byte, s := (hash / divisor) % 256, ShardBucket(hash, divisor);
    HexDigitReadsBack(byte / 16);
    HexDigitReadsBack(byte % 16);
    assert s[..1][..0] == [] && s[..1][0] == s[0];
    assert HexValue(s[..1]) == byte / 16;
  }

  /** The two shard directories of a book spell the low sixteen bits of its hash, the lowest byte first. */
  lemma ShardsSpellHash(id: nat)
    ensures var shards := ShardDirectory(id);
            && |shards| == 3 && shards[0] == "Objects"
            && HexValue(shards[1]) + 256 * HexValue(shards[2]) == ShardHash(FolderName(id)) % 65536
  {
    var hash := ShardHash(FolderName(id));
    BucketReadsBack(hash, 1);
    BucketReadsBack(hash, 256);
    LowBytes(hash);
  }

  /** An EPUB is stored as it is under every encoding, and an FB2 file says whether it is compressed. */
  lemma FileNames(id: nat, encoding: StorageEncoding, extension: string)
    ensures RelativeBookPath(id, Epub, encoding)[3] == FolderName(id) + ".book.epub"
    ensures RelativeBookPath(id, Fb2, Plain)[3] == FolderName(id) + ".book.fb2"
    ensures RelativeBookPath(id, Fb2, Compressed)[3] == FolderName(id) + ".book.fb2.gz"
    ensures RelativeCoverPath(id, extension)[3] == FolderName(id) + ".cover." + extension
  {
    assert FolderName(id) + "." + "book.epub" == FolderName(id) + ".book.epub";
    assert FolderName(id) + "." + "book.fb2" == FolderName(id) + ".book.fb2";
    assert FolderName(id) + "." + "book.fb2.gz" == FolderName(id) + ".book.fb2.gz";
  }

  lemma LowBytes(hash: nat)
    ensures hash % 65536 == (hash / 1) % 256 + 256 * ((hash / 256) % 256)
  {
  }

  /** The number ends in that many zero bits. */
  predicate EndsInZeros(top: nat, bits: nat) {
    bits == 0 || (top % 2 == 0 && EndsInZeros(top / 2, bits - 1))
  }

  /** Exclusive or with a small number leaves the high bits alone. */
  lemma {:induction false} XorKeepsHighBits(top: nat, low: nat, b: nat, bits: nat)
    requires EndsInZeros(top, bits) && low < Power(bits) && b < Power(bits)
    ensures Xor(top + low, b) == top + Xor(low, b)
  {
    if bits == 0 {
      XorWithNothing(top);
    } else {
      XorKeepsHighBits(top / 2, low / 2, b / 2, bits - 1);
      XorOfLowestBit(top / 2, low, b);
    }
  }

  lemma XorOfLowestBit(x: nat, low: nat, b: nat)
    requires Xor(x + low / 2, b / 2) == x + Xor(low / 2, b / 2)
    ensures Xor(2 * x + low, b) == 2 * x + Xor(low, b)
  {
    assert (2 * x + low) / 2 == x + low / 2 && (2 * x + low) % 2 == low % 2;
    XorUnfolded(2 * x + low, b);
    XorUnfolded(low, b);
  }

  lemma {:induction false} XorWithNothing(a: nat)
    ensures Xor(a, 0) == a
  {
    if a != 0 {
      XorWithNothing(a / 2);
    }
  }

  lemma XorUnfolded(a: nat, b: nat)
    ensures Xor(a, b) == 2 * Xor(a / 2, b / 2) + (if a % 2 == b % 2 then 0 else 1)
  {
  }

  lemma XorOfLetter(a: nat, b: nat)
    requires a == 69 && b == 97
    ensures Xor(a, b) == 36
  {
    XorUnfolded(a, b);
    XorUnfolded(a / 2, b / 2);
    XorUnfolded(a / 4, b / 4);
    XorUnfolded(a / 8, b / 8);
    XorUnfolded(a / 16, b / 16);
    XorUnfolded(a / 32, b / 32);
    XorUnfolded(a / 64, b / 64);
  }

  lemma {:induction false} MultiplesEndInZeros(high: nat, bits: nat)
    ensures EndsInZeros(high * Power(bits), bits)
  {
    if bits > 0 {
      MultiplesEndInZeros(high, bits - 1);
      assert high * Power(bits) == 2 * (high * Power(bits - 1));
    }
  }

  lemma MixingLetter(high: nat, low: nat, b: nat)
    requires low == 69 && b == 97
    ensures Xor(high * 128 + low, b) == high * 128 + 36
  {
    assert Power(7) == 128;
    MultiplesEndInZeros(high, 7);
    XorOfLetter(low, b);
    XorKeepsHighBits(high * 128, low, b, 7);
  }

  lemma LongerHash(name: string, c: char, longer: string, mixed: nat)
    requires longer == name + [c] && mixed == Xor(ShardHash(name), c as nat)
    ensures ShardHash(longer) == Times(mixed, PRIME)
  {
    assert longer[..|longer| - 1] == name;
  }

  lemma TimesOfLetter(mixed: nat)
    requires mixed == 0x811C_9DA4
    ensures Times(mixed, PRIME) == 0xE40C_292C
  {
  }

  /** The published test vectors of 32-bit FNV-1a for the empty text and for one letter after it. */
  lemma HashOfNothing()
    ensures ShardHash("") == 0x811C_9DC5
  {
  }

  lemma HashOfLetter(name: string, c: char, longer: string)
    requires ShardHash(name) == 0x811C_9DC5 && c == 'a' && longer == name + [c]
    ensures ShardHash(longer) == 0xE40C_292C
  {
    var mixed := Xor(ShardHash(name), c as nat);
    MixingLetter(ShardHash(name) / 128, ShardHash(name) % 128, c as nat);
    LongerHash(name, c, longer, mixed);
    TimesOfLetter(mixed);
  }

  // ---------------------------------------------------------------------------------------
  // Directories that lie apart
  // ---------------------------------------------------------------------------------------

  /** Neither directory contains the other. */
  predicate AreApart(a: Path, b: Path) {
    !(a <= b) && !(b <= a)
  }

  lemma ApartIsInherited(a: Path, b: Path, p: Path, q: Path)
    requires AreApart(a, b) && a <= p && b <= q
    ensures !(p <= q) && !(q <= p) && p != q
  {
  }
}
