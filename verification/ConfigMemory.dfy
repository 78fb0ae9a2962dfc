/** Memory sizes as CONFIG REWRITE writes them (config.c:1476-1491), and what atoi makes of them. */
module ConfigMemory {
  import opened CStrings
  import opened ConfigOptions
  import Decimal

  const MB := 1024 * 1024

  /** rewriteConfigFormatMemory */
  function MemoryText(bytes: nat): cstring {
    if bytes != 0 && bytes % (1024 * MB) == 0 then Decimal.Text(bytes / (1024 * MB)) + "gb"
    else if bytes != 0 && bytes % MB == 0 then Decimal.Text(bytes / MB) + "mb"
    else if bytes != 0 && bytes % 1024 == 0 then Decimal.Text(bytes / 1024) + "kb"
    else Decimal.Text(bytes)
  }

  /** The units a size may be written in, the largest first. */
  const UNITS: seq<(cstring, nat)> := [("gb", 0x4000_0000), ("mb", 0x10_0000), ("kb", 0x400), ("", 1)]

  /** A size is written as a whole number of the largest unit that divides it; zero is written without a unit. */
  lemma MemoryTextIs(bytes: nat, u: nat)
    requires u < 4 && (if bytes == 0 then u == 3 else bytes % UNITS[u].1 == 0)
    requires forall v :: 0 <= v < u && bytes != 0 ==> bytes % UNITS[v].1 != 0
    ensures exists k: nat :: k * UNITS[u].1 == bytes && MemoryText(bytes) == Decimal.Text(k) + UNITS[u].0
  {
    hide Decimal.Text;
    assert u > 0 && bytes != 0 ==> bytes % UNITS[0].1 != 0;
    assert u > 1 && bytes != 0 ==> bytes % UNITS[1].1 != 0;
    assert u > 2 && bytes != 0 ==> bytes % UNITS[2].1 != 0;
    var k := bytes / UNITS[u].1;
    assert Decimal.Text(k) + "" == Decimal.Text(k);
    assert k * UNITS[u].1 == bytes && MemoryText(bytes) == Decimal.Text(k) + UNITS[u].0;
  }

  lemma MemoryWord(bytes: nat)
    ensures Word(MemoryText(bytes))
  {
    NumberWord(bytes);
    NumberWord(bytes / 1024);
    NumberWord(bytes / MB);
    NumberWord(bytes / (1024 * MB));
    hide Decimal.Text;
  }

  // ---------- Read as a plain number ----------

  lemma AtoiUnit(n: nat, unit: cstring)
    requires unit != [] && !IsDigit(unit[0])
    ensures Decimal.Atoi(Decimal.Text(n) + unit) == n
  {
    Decimal.ReadBack(n);
    var t := Decimal.Digits(n);
    assert (t + unit)[0] == t[0] && IsDigit(t[0]);
    Decimal.ReadUpTo(t, unit, 0);
  }

  lemma ThousandTimes(q: nat)
    ensures (1024 * q) % 1024 == 0
  {
  }

  lemma Smaller(n: nat)
    requires n > 0
    ensures n / 1024 < n && n / MB < n && n / (1024 * MB) < n
  {
  }

  /** Multiples of the larger units are multiples of 1024. */
  lemma Units(n: nat)
    ensures n % MB == 0 ==> n % 1024 == 0
    ensures n % (1024 * MB) == 0 ==> n % 1024 == 0
  {
    if n % MB == 0 {
      ThousandTimes(1024 * (n / MB));
    }
    if n % (1024 * MB) == 0 {
      ThousandTimes(MB * (n / (1024 * MB)));
    }
  }

  /** repl-backlog-ttl is written as a memory size and read by atoi: it comes back exactly if it is zero or
      no multiple of 1024. */
  lemma TtlComesBackWhen(n: nat)
    ensures Decimal.Atoi(MemoryText(n)) == n <==> n == 0 || n % 1024 != 0
  {
    hide Decimal.Text, Decimal.Atoi;
    Decimal.AtoiText(n);
    if n > 0 {
      Units(n);
      Smaller(n);
      UnitTexts(n);
      hide MemoryText;
    }
  }

  lemma UnitTexts(n: nat)
    requires n > 0
    ensures var v := Decimal.Atoi(MemoryText(n));
            v == if n % (1024 * MB) == 0 then n / (1024 * MB) else if n % MB == 0 then n / MB
                 else if n % 1024 == 0 then n / 1024 else n
  {
    AtoiUnit(n / 1024, "kb");
    AtoiUnit(n / MB, "mb");
    AtoiUnit(n / (1024 * MB), "gb");
    Decimal.AtoiText(n);
    hide Decimal.Text, Decimal.Atoi;
  }

  /** So 1024 seconds become one. */
  lemma TtlLost()
    ensures MemoryText(1024) == "1kb" && Decimal.Atoi(MemoryText(1024)) == 1
  {
    AtoiUnit(1, "kb");
    hide Decimal.Atoi;
  }
}
