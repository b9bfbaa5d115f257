/**
 STM32 SoC helpers: the GPIO port address computation and the
 name-keyed database of SoC descriptions.
 */
module Stm32 {
  import opened Wrappers

  /** Number of GPIO ports, named 'A' to 'F'. */
  const GpioCount: nat := 6
  const GpioNames: string := "ABCDEF"

  /** Base address of GPIO port A. */
  const GpioBase: nat := 0x4800_0000

  /** Address distance between consecutive GPIO ports. */
  const GpioStride: nat := 0x400

  /** `gpio_n`: the name and base address of GPIO port n, None past the last port. */
  function GpioN(n: nat): (r: Option<(char, nat)>)
    ensures r.None? <==> n >= GpioCount
    ensures r.Some? ==> r.value.0 == GpioNames[n] && GpioPortAt(r.value.1) == Some(n)
  {
    if n >= GpioCount then None
    else Some((GpioNames[n], GpioBase + GpioStride * n))
  }

  /** The port whose register block starts at `base`, if any: the inverse of GpioN. */
  function GpioPortAt(base: nat): (n: Option<nat>)
    ensures n.Some? ==> n.value < GpioCount
  {
    if base < GpioBase || (base - GpioBase) % GpioStride != 0 then None
    else if (base - GpioBase) / GpioStride < GpioCount then Some((base - GpioBase) / GpioStride)
    else None
  }

  /** GpioN and GpioPortAt are inverse: each port's base leads back to the
      port, and each base GpioPortAt recognises is the base of its port. */
  lemma GpioBaseRoundTrip(n: nat, base: nat)
    ensures GpioN(n).Some? ==> GpioPortAt(GpioN(n).value.1) == Some(n)
    ensures GpioPortAt(base).Some? ==>
              && GpioN(GpioPortAt(base).value).Some?
              && GpioN(GpioPortAt(base).value).value.1 == base
  {
  }

  /** Ports 0 to 5 are A to F, one stride apart, in increasing address order. */
  lemma GpioLayout(i: nat, j: nat)
    requires i < j < GpioCount
    ensures GpioN(i).Some? && GpioN(j).Some?
    ensures GpioN(i).value.1 + GpioStride * (j - i) == GpioN(j).value.1
    ensures GpioN(i).value.1 + GpioStride <= GpioN(j).value.1
    ensures GpioN(i).value.0 != GpioN(j).value.0
  {
  }

  /** The first port is A at 0x48000000 and the last is F at 0x48001400. */
  lemma GpioBounds(n: nat)
    requires n < GpioCount
    ensures GpioN(0) == Some(('A', 0x4800_0000))
    ensures GpioN(5) == Some(('F', 0x4800_1400))
    ensures 0x4800_0000 <= GpioN(n).value.1 <= 0x4800_1400
  {
  }

  /** An SoC description (the static vector table is not modelled). */
  datatype SocInfo = SocInfo(name: string, cpuType: string, priorityBits: nat)

  /** `soc_db`: descriptions keyed by SoC name. */
  type SocDb = map<string, SocInfo>

  /** Every description is filed under its own name. */
  ghost predicate KeyedByName(db: SocDb)
  {
    forall k :: k in db ==> db[k].name == k
  }

  /** `db_insert`: file info under its name, replacing any earlier entry. */
  function DbInsert(db: SocDb, info: SocInfo): (db': SocDb)
    ensures db'.Keys == db.Keys + {info.name}
    ensures db'[info.name] == info
    ensures forall k :: k in db && k != info.name ==> db'[k] == db[k]
    ensures KeyedByName(db) ==> KeyedByName(db')
  {
    db[info.name := info]
  }

  /** `lookup`: the description filed under name; a name not in the
      database is a failure (None). */
  function Lookup(db: SocDb, name: string): (r: Option<SocInfo>)
    ensures r.Some? <==> name in db
    ensures KeyedByName(db) && r.Some? ==> r.value.name == name
  {
    if name in db then Some(db[name]) else None
  }

  /** After db_insert(info), lookup of info's name returns info and lookup
      of any other name is unchanged. */
  lemma InsertThenLookup(db: SocDb, info: SocInfo, name: string)
    ensures Lookup(DbInsert(db, info), info.name) == Some(info)
    ensures name != info.name ==> Lookup(DbInsert(db, info), name) == Lookup(db, name)
  {
  }

  /** The database after a series of db_insert calls on an empty one. */
  function InsertAll(infos: seq<SocInfo>): SocDb
  {
    if |infos| == 0 then map[] else DbInsert(InsertAll(infos[..|infos| - 1]), infos[|infos| - 1])
  }

  /** A description with the given name occurs in the list. */
  ghost predicate Inserted(infos: seq<SocInfo>, name: string)
  {
    exists i :: 0 <= i < |infos| && infos[i].name == name
  }

  /** infos[i] is the last description in the list with the given name. */
  ghost predicate LastNamed(infos: seq<SocInfo>, name: string, i: int)
  {
    && 0 <= i < |infos|
    && infos[i].name == name
    && forall j :: i < j < |infos| ==> infos[j].name != name
  }

  /** The last insert of a series decides the entry under its own name and
      leaves every other name as the earlier inserts left it. */
  lemma InsertAllStep(infos: seq<SocInfo>, name: string)
    requires |infos| > 0
    ensures var init, last := infos[..|infos| - 1], infos[|infos| - 1];
            Lookup(InsertAll(infos), name)
              == if last.name == name then Some(last) else Lookup(InsertAll(init), name)
  {
  }

  /** After a series of inserts, lookup of a name succeeds exactly when a
      description with that name was inserted. */
  lemma {:induction false} LookupAfterInserts(infos: seq<SocInfo>, name: string)
    ensures Lookup(InsertAll(infos), name).Some? <==> Inserted(infos, name)
    decreases |infos|
  {
    if |infos| > 0 {
      var init := infos[..|infos| - 1];
      InsertAllStep(infos, name);
      LookupAfterInserts(init, name);
      if Inserted(infos, name) && infos[|infos| - 1].name != name {
        var i :| 0 <= i < |infos| && infos[i].name == name;
        assert init[i].name == name;
      }
      if Inserted(init, name) {
        var i :| 0 <= i < |init| && init[i].name == name;
        assert infos[i].name == name;
      }
    }
  }

  /** A successful lookup after a series of inserts returns the last
      description inserted under that name. */
  lemma {:induction false} LookupReturnsLastInsert(infos: seq<SocInfo>, name: string)
    requires Lookup(InsertAll(infos), name).Some?
    ensures exists i :: LastNamed(infos, name, i) && infos[i] == Lookup(InsertAll(infos), name).value
    decreases |infos|
  {
    var init, last := infos[..|infos| - 1], infos[|infos| - 1];
    InsertAllStep(infos, name);
    if last.name == name {
      assert LastNamed(infos, name, |infos| - 1);
    } else {
      LookupReturnsLastInsert(init, name);
      var k :| LastNamed(init, name, k) && init[k] == Lookup(InsertAll(init), name).value;
      assert LastNamed(infos, name, k);
    }
  }

  const STM32F303xC_info: SocInfo := SocInfo("STM32F303xC", "cortex-m4", 4)

  /** The database as the module initialises it. */
  const InitialDb: SocDb := DbInsert(map[], STM32F303xC_info)

  /** The initial database knows STM32F303xC and nothing else. */
  lemma InitialDbContents(name: string)
    ensures Lookup(InitialDb, "STM32F303xC") == Some(STM32F303xC_info)
    ensures name != "STM32F303xC" ==> Lookup(InitialDb, name).None?
  {
  }
}
