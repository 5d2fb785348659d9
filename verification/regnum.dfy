/** DWARF register numbering for 32-bit ARM, after Table 1 of "DWARF for the
    ARM Architecture" (ARM IHI 0040B): numbers 0..15 are the core registers
    R0..R15 and 64..95 the single-precision VFP registers S0..S31. */
module Regnum {
  import opened Words

  const ARM_R0: int := 0
  const ARM_BP: int := 11
  const ARM_LR: int := 14
  const ARM_SP: int := 13
  const ARM_PC: int := 15
  const ARM_S0: int := 64
  const ARM_MaxRegNum: int := ARM_S0 + 31

  /** One decimal digit as a character. */
  function Digit(d: nat): (c: char)
    requires d < 10
    ensures '0' <= c <= '9'
  {
    ('0' as int + d) as char
  }

  /** `fmt.Sprintf("%d", n)` for a non-negative n. */
  function Dec(n: nat): (s: string)
    ensures |s| >= 1
    ensures forall i :: 0 <= i < |s| ==> '0' <= s[i] <= '9'
    ensures n < 10 <==> |s| == 1
  {
    if n < 10 then [Digit(n)] else Dec(n / 10) + [Digit(n % 10)]
  }

  /** Distinct numbers print as distinct decimal strings. */
  lemma {:induction false} DecInjective(m: nat, n: nat)
    requires Dec(m) == Dec(n)
    ensures m == n
  {
    if m >= 10 && n >= 10 {
      var dm, dn := Dec(m), Dec(n);
      assert Digit(m % 10) == dm[|dm| - 1] == dn[|dn| - 1] == Digit(n % 10);
      assert Dec(m / 10) == dm[..|dm| - 1] == dn[..|dn| - 1] == Dec(n / 10);
      DecInjective(m / 10, n / 10);
    }
  }

  predicate HasPrefix(s: string, p: string)
  {
    |p| <= |s| && s[..|p|] == p
  }

  predicate IsUnknownName(s: string)
  {
    HasPrefix(s, "unknown")
  }

  /** The printable name of DWARF register `num`. Total: numbers outside both
      ranges get a synthesised "unknownN" name instead of an error. The cases
      for 13 ("SP") and 15 ("PC") come after `num <= 15` and are never taken. */
  function ARMToName(num: u64): (r: string)
    ensures IsUnknownName(r) <==> !(num <= 15 || ARM_S0 <= num <= ARM_S0 + 31)
    ensures num <= 15 ==> r == "R" + Dec(num)
    ensures ARM_S0 <= num <= ARM_S0 + 31 ==> r == "S" + Dec(num - ARM_S0)
    ensures !(num <= 15 || ARM_S0 <= num <= ARM_S0 + 31) ==> r == "unknown" + Dec(num)
  {
    if num <= 15 then "R" + Dec(num)
    else if num == ARM_SP then "SP"
    else if num == ARM_PC then "PC"
    else if ARM_S0 <= num <= ARM_S0 + 31 then "S" + Dec(num - ARM_S0)
    else "unknown" + Dec(num)
  }

  /** The stack pointer and program counter are named as general registers. */
  lemma SpAndPcNamedAsGeneral()
    ensures ARMToName(ARM_SP) == "R13" && ARMToName(ARM_PC) == "R15"
  {
    assert Dec(13) == Dec(1) + [Digit(3)];
    assert Dec(15) == Dec(1) + [Digit(5)];
  }

  /** The largest DWARF register number with a name of its own. */
  function ARMMaxRegNum(): (r: u64)
    ensures r == ARM_S0 + 31 && ARMToName(r) == "S" + Dec(31)
    ensures forall n: u64 :: n > r ==> IsUnknownName(ARMToName(n))
  {
    ARM_MaxRegNum
  }

  /** Dec is injective, for every pair of numbers at once. */
  lemma PrefixedDecInjective(prefix: string)
    ensures forall m: nat, n: nat :: prefix + Dec(m) == prefix + Dec(n) ==> m == n
  {
    forall m: nat, n: nat | prefix + Dec(m) == prefix + Dec(n)
      ensures m == n
    {
      assert Dec(m) == (prefix + Dec(m))[|prefix|..];
      assert Dec(n) == (prefix + Dec(n))[|prefix|..];
      DecInjective(m, n);
    }
  }

  /** The entries prefix + "0" .. prefix + (count - 1) mapped to base + i,
      as one of the init loops of the name table builds them. */
  function Numbered(prefix: string, base: int, count: nat): (m: map<string, int>)
    ensures forall i :: 0 <= i < count ==> prefix + Dec(i) in m && m[prefix + Dec(i)] == base + i
  {
    PrefixedDecInjective(prefix);
    map i | 0 <= i < count :: prefix + Dec(i) := base + i
  }

  /** The keys of Numbered(prefix, base, n). */
  function NumberedKeys(prefix: string, n: nat): set<string>
  {
    set i | 0 <= i < n :: prefix + Dec(i)
  }

  lemma NumberedKeysGrow(prefix: string, n: nat)
    ensures NumberedKeys(prefix, n + 1) == NumberedKeys(prefix, n) + {prefix + Dec(n)}
  {
  }

  lemma NumberedKeyFresh(prefix: string, n: nat)
    ensures prefix + Dec(n) !in NumberedKeys(prefix, n)
  {
    PrefixedDecInjective(prefix);
  }

  lemma {:induction false} NumberedKeysSize(prefix: string, n: nat)
    ensures |NumberedKeys(prefix, n)| == n
  {
    if n > 0 {
      NumberedKeysSize(prefix, n - 1);
      NumberedKeysGrow(prefix, n - 1);
      NumberedKeyFresh(prefix, n - 1);
    }
  }

  lemma NumberedSize(prefix: string, base: int, count: nat)
    ensures |Numbered(prefix, base, count)| == count
  {
    assert Numbered(prefix, base, count).Keys == NumberedKeys(prefix, count);
    NumberedKeysSize(prefix, count);
  }

  /** A key of Numbered(prefix, ...) is the prefix followed by a digit, and
      its value is in range. */
  lemma NumberedKey(prefix: string, base: int, count: nat, k: string)
    ensures k in Numbered(prefix, base, count) ==>
      && |k| > |prefix|
      && (forall j :: 0 <= j < |prefix| ==> k[j] == prefix[j])
      && '0' <= k[|prefix|] <= '9'
      && base <= Numbered(prefix, base, count)[k] < base + count
  {
    if k in Numbered(prefix, base, count) {
      var i :| 0 <= i < count && k == prefix + Dec(i);
      assert k[|prefix|] == Dec(i)[0];
    }
  }

  /** The four alternative names of general registers. */
  function Aliases(): map<string, int>
  {
    map["bp" := ARM_BP, "lr" := ARM_LR, "sp" := ARM_SP, "pc" := ARM_PC]
  }

  lemma AliasKey(k: string)
    ensures k in Aliases() ==> |k| == 2 && !('0' <= k[1] <= '9') && ARM_BP <= Aliases()[k] <= ARM_PC
  {
  }

  /** The general part of the table: "r0".."r15", then the aliases. */
  function GeneralNames(): map<string, int>
  {
    Numbered("r", ARM_R0, 16) + Aliases()
  }

  /** ARMNameToDwarf: "r0".."r15", then the aliases, then "s0".."s31". */
  function ARMNameToDwarf(): map<string, int>
  {
    GeneralNames() + Numbered("s", ARM_S0, 32)
  }

  lemma GeneralNameFacts(k: string)
    requires k in GeneralNames()
    ensures k !in Numbered("s", ARM_S0, 32)
    ensures 0 <= GeneralNames()[k] <= 15
  {
    var r, a, s := Numbered("r", ARM_R0, 16), Aliases(), Numbered("s", ARM_S0, 32);
    NumberedKey("s", ARM_S0, 32, k);
    if k in a {
      AliasKey(k);
      assert GeneralNames()[k] == a[k];
    } else {
      NumberedKey("r", ARM_R0, 16, k);
      assert k[0] == 'r';
      assert GeneralNames()[k] == r[k];
    }
  }

  /** The keys of a map union. */
  lemma UnionKeys(m1: map<string, int>, m2: map<string, int>)
    ensures (m1 + m2).Keys == m1.Keys + m2.Keys
  {
  }

  lemma AliasesApart()
    ensures Numbered("r", ARM_R0, 16).Keys !! Aliases().Keys
  {
    forall k | k in Aliases() ensures k !in Numbered("r", ARM_R0, 16) {
      NumberedKey("r", ARM_R0, 16, k);
      AliasKey(k);
    }
  }

  lemma GeneralNamesSize()
    ensures |GeneralNames()| == 20
  {
    var r, a := Numbered("r", ARM_R0, 16), Aliases();
    NumberedSize("r", ARM_R0, 16);
    AliasesApart();
    assert |a.Keys| == 4;
    UnionKeys(r, a);
  }

  /** A general name keeps its number in the whole table. */
  lemma GeneralInTable(k: string)
    requires k in GeneralNames()
    ensures k in ARMNameToDwarf() && ARMNameToDwarf()[k] == GeneralNames()[k]
  {
    GeneralNameFacts(k);
  }

  lemma CoreNameInTable(n: nat)
    requires n <= 15
    ensures "r" + Dec(n) in ARMNameToDwarf() && ARMNameToDwarf()["r" + Dec(n)] == n
  {
    var k := "r" + Dec(n);
    assert k[1] == Dec(n)[0];
    AliasKey(k);
    assert k in Numbered("r", ARM_R0, 16) && k !in Aliases();
    GeneralInTable(k);
  }

  /** "r0".."r15" look up 0..15, the numbers ARMToName prints as "R0".."R15". */
  lemma CoreNamesInTable()
    ensures forall n :: 0 <= n <= 15 ==>
      "r" + Dec(n) in ARMNameToDwarf() && ARMNameToDwarf()["r" + Dec(n)] == n && ARMToName(n) == "R" + Dec(n)
  {
    forall n | 0 <= n <= 15
      ensures "r" + Dec(n) in ARMNameToDwarf() && ARMNameToDwarf()["r" + Dec(n)] == n
    {
      CoreNameInTable(n);
    }
  }

  /** "s0".."s31" look up 64..95, which ARMToName prints as "S0".."S31". */
  lemma VfpNamesInTable()
    ensures forall i :: 0 <= i <= 31 ==>
      "s" + Dec(i) in ARMNameToDwarf() && ARMNameToDwarf()["s" + Dec(i)] == ARM_S0 + i && ARMToName(ARM_S0 + i) == "S" + Dec(i)
  {
  }

  /** The aliases "bp", "lr", "sp" and "pc" look up the frame pointer, link
      register, stack pointer and program counter. */
  lemma AliasInTable(k: string)
    requires k in Aliases()
    ensures k in ARMNameToDwarf() && ARMNameToDwarf()[k] == Aliases()[k]
  {
    assert k in GeneralNames() && GeneralNames()[k] == Aliases()[k];
    GeneralInTable(k);
  }

  lemma GeneralApart()
    ensures GeneralNames().Keys !! Numbered("s", ARM_S0, 32).Keys
  {
    forall k | k in GeneralNames() ensures k !in Numbered("s", ARM_S0, 32) {
      GeneralNameFacts(k);
    }
  }

  /** The table has exactly 52 names. */
  lemma NameToDwarfSize()
    ensures |ARMNameToDwarf()| == 52
  {
    var g, s := GeneralNames(), Numbered("s", ARM_S0, 32);
    NumberedSize("s", ARM_S0, 32);
    GeneralNamesSize();
    GeneralApart();
    UnionKeys(g, s);
  }

  /** Every number in the table is one that ARMToName names without the
      "unknown" prefix. */
  lemma NameToDwarfNamed(k: string)
    requires k in ARMNameToDwarf()
    ensures 0 <= ARMNameToDwarf()[k] <= ARM_MaxRegNum
    ensures !IsUnknownName(ARMToName(ARMNameToDwarf()[k]))
  {
    var s := Numbered("s", ARM_S0, 32);
    if k in s {
      NumberedKey("s", ARM_S0, 32, k);
    } else {
      GeneralNameFacts(k);
    }
  }
}
