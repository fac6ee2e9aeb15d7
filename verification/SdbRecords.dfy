/** The records of a self-describing bus table and their 64-byte form. */
module SdbRecords {
  import opened Words

  datatype Product = Product(vendor: nat, id: nat, version: nat, date: nat, name: seq<Byte>)

  datatype Component = Component(first: nat, last: nat, product: Product)

  datatype SdbDevice = SdbDevice(abiClass: nat, abiMajor: Byte, abiMinor: Byte, busSpecific: nat, component: Component)

  /** Every field fits its C type. */
  predicate ValidProduct(p: Product) {
    p.vendor < WORD && p.id < 0x1_0000_0000 && p.version < 0x1_0000_0000 && p.date < 0x1_0000_0000 && |p.name| == 19
  }

  predicate ValidComponent(c: Component) {
    c.first < WORD && c.last < WORD && ValidProduct(c.product)
  }

  predicate ValidDevice(d: SdbDevice) {
    d.abiClass < 0x1_0000 && d.busSpecific < 0x1_0000_0000 && ValidComponent(d.component)
  }

  const INTERCONNECT: Byte := 0x00
  const DEVICE: Byte := 0x01

  const MAGIC: nat := 0x5344422D

  /** "Software-EB-Bus" and four blanks. */
  const BUS_NAME: seq<Byte> := [0x53, 0x6F, 0x66, 0x74, 0x77, 0x61, 0x72, 0x65, 0x2D, 0x45, 0x42, 0x2D, 0x42, 0x75, 0x73,
                                0x20, 0x20, 0x20, 0x20]

  // ---------------------------------------------------------------------------
  // Bytes
  // ---------------------------------------------------------------------------

  function ProductBytes(p: Product, kind: Byte): (s: seq<Byte>)
    requires |p.name| == 19
    ensures |s| == 40
  {
    BigEndian(p.vendor, 8) + (BigEndian(p.id, 4) + (BigEndian(p.version, 4) + (BigEndian(p.date, 4) + (p.name + [kind]))))
  }

  function ComponentBytes(c: Component, kind: Byte): (s: seq<Byte>)
    requires |c.product.name| == 19
    ensures |s| == 56
  {
    BigEndian(c.first, 8) + (BigEndian(c.last, 8) + ProductBytes(c.product, kind))
  }

  function DeviceBytes(d: SdbDevice): (s: seq<Byte>)
    requires |d.component.product.name| == 19
    ensures |s| == 64
  {
    BigEndian(d.abiClass, 2) + ([d.abiMajor] + ([d.abiMinor] + (BigEndian(d.busSpecific, 4)
    + ComponentBytes(d.component, DEVICE))))
  }

  /** The header of a served table: the whole address space, and how many records follow. */
  function InterconnectBytes(devices: nat, version: nat, date: nat): (s: seq<Byte>)
    ensures |s| == 64
  {
    var product := Product(0x651, 0x02398114, version, date, BUS_NAME);
    BigEndian(MAGIC, 4) + (BigEndian(devices + 1, 2) + ([1] + ([0]
    + ComponentBytes(Component(0, WORD - 1, product), INTERCONNECT))))
  }

  // ---------------------------------------------------------------------------
  // Reading them back
  // ---------------------------------------------------------------------------

  /** The number in n bytes of s. */
  function Field(s: seq<Byte>, at: nat, n: nat): nat
    requires at + n <= |s|
  {
    Value(s[at..at + n])
  }

  function ProductOf(s: seq<Byte>): Product
    requires |s| == 40
  {
    Product(Field(s, 0, 8), Field(s, 8, 4), Field(s, 12, 4), Field(s, 16, 4), s[20..39])
  }

  /** Ranges are moved by the address the bus is seen at, in 64 bits. */
  function ComponentOf(s: seq<Byte>, base: nat): Component
    requires |s| == 56
  {
    Component((Field(s, 0, 8) + base) % WORD, (Field(s, 8, 8) + base) % WORD, ProductOf(s[16..]))
  }

  function DeviceOf(s: seq<Byte>, base: nat): SdbDevice
    requires |s| == 64
  {
    SdbDevice(Field(s, 0, 2), s[2], s[3], Field(s, 4, 4), ComponentOf(s[8..], base))
  }

  /** A device as seen through a bridge that starts at base. */
  function Rebased(d: SdbDevice, base: nat): SdbDevice {
    d.(component := d.component.(first := (d.component.first + base) % WORD, last := (d.component.last + base) % WORD))
  }

  /** Where the fields of a component are in its 56 bytes. */
  lemma ComponentLayout(c: Component, kind: Byte)
    requires |c.product.name| == 19
    ensures var s := ComponentBytes(c, kind);
            && s[0..8] == BigEndian(c.first, 8) && s[8..16] == BigEndian(c.last, 8)
            && s[16..24] == BigEndian(c.product.vendor, 8) && s[24..28] == BigEndian(c.product.id, 4)
            && s[28..32] == BigEndian(c.product.version, 4) && s[32..36] == BigEndian(c.product.date, 4)
            && s[36..55] == c.product.name && s[55] == kind
  {
    hide BigEndian;
    var p := c.product;
    var s := ComponentBytes(c, kind);
    var s6 := p.name + [kind];
    var s5 := BigEndian(p.date, 4) + s6;
    var s4 := BigEndian(p.version, 4) + s5;
    var s3 := BigEndian(p.id, 4) + s4;
    var s2 := BigEndian(p.vendor, 8) + s3;
    var s1 := BigEndian(c.last, 8) + s2;
    assert s == BigEndian(c.first, 8) + s1;
    Behind(s, 0, BigEndian(c.first, 8), s1);
    Behind(s, 8, BigEndian(c.last, 8), s2);
    Behind(s, 16, BigEndian(p.vendor, 8), s3);
    Behind(s, 24, BigEndian(p.id, 4), s4);
    Behind(s, 28, BigEndian(p.version, 4), s5);
    Behind(s, 32, BigEndian(p.date, 4), s6);
    Behind(s, 36, p.name, [kind]);
  }

  lemma Behind<T>(s: seq<T>, k: nat, a: seq<T>, b: seq<T>)
    requires k <= |s| && s[k..] == a + b
    ensures k + |a| <= |s| && s[k..k + |a|] == a && s[k + |a|..] == b
  {
    assert s[k..][..|a|] == a && s[k..][|a|..] == b;
  }

  /** Where the fields of a device record and of the header are. */
  lemma RecordLayout(d: SdbDevice, devices: nat, version: nat, date: nat)
    requires |d.component.product.name| == 19
    ensures var s := DeviceBytes(d);
            && s[0..2] == BigEndian(d.abiClass, 2) && s[2] == d.abiMajor && s[3] == d.abiMinor
            && s[4..8] == BigEndian(d.busSpecific, 4) && s[8..] == ComponentBytes(d.component, 0x01)
    ensures var s := InterconnectBytes(devices, version, date);
            && s[0..4] == BigEndian(0x5344422D, 4) && s[4..6] == BigEndian(devices + 1, 2) && s[6] == 1 && s[7] == 0
            && s[8..] == ComponentBytes(Component(0, WORD - 1, Product(0x651, 0x02398114, version, date, BUS_NAME)), 0x00)
  {
    hide BigEndian, ComponentBytes;
    var c := ComponentBytes(d.component, 0x01);
    var s := DeviceBytes(d);
    assert s == BigEndian(d.abiClass, 2) + ([d.abiMajor] + ([d.abiMinor] + (BigEndian(d.busSpecific, 4) + c)));
    Behind(s, 0, BigEndian(d.abiClass, 2), [d.abiMajor] + ([d.abiMinor] + (BigEndian(d.busSpecific, 4) + c)));
    Behind(s, 2, [d.abiMajor], [d.abiMinor] + (BigEndian(d.busSpecific, 4) + c));
    Behind(s, 3, [d.abiMinor], BigEndian(d.busSpecific, 4) + c);
    Behind(s, 4, BigEndian(d.busSpecific, 4), c);
    HeaderLayout(devices, version, date);
  }

  lemma HeaderLayout(devices: nat, version: nat, date: nat)
    ensures var s := InterconnectBytes(devices, version, date);
            && s[0..4] == BigEndian(0x5344422D, 4) && s[4..6] == BigEndian(devices + 1, 2) && s[6] == 1 && s[7] == 0
            && s[8..] == ComponentBytes(Component(0, WORD - 1, Product(0x651, 0x02398114, version, date, BUS_NAME)), 0x00)
  {
    hide BigEndian, ComponentBytes;
    var c := ComponentBytes(Component(0, WORD - 1, Product(0x651, 0x02398114, version, date, BUS_NAME)), 0x00);
    var s := InterconnectBytes(devices, version, date);
    var s1 := BigEndian(devices + 1, 2) + ([1] + ([0] + c));
    assert s == BigEndian(0x5344422D, 4) + s1;
    Behind(s, 0, BigEndian(0x5344422D, 4), s1);
    Behind(s, 4, BigEndian(devices + 1, 2), [1] + ([0] + c));
    Behind(s, 6, [1], [0] + c);
    Behind(s, 7, [0], c);
  }

  lemma FieldFirst(v: nat, n: nat, rest: seq<Byte>)
    requires v < Pow256(n)
    ensures Field(BigEndian(v, n) + rest, 0, n) == v
    ensures (BigEndian(v, n) + rest)[n..] == rest
  {
    var s := BigEndian(v, n) + rest;
    assert s[0..n] == BigEndian(v, n);
    ValueOfBigEndian(v, n);
    SmallMod(v, Pow256(n));
  }

  /** A field behind a prefix. */
  lemma FieldBehind(s: seq<Byte>, k: nat, at: nat, n: nat)
    requires k + at + n <= |s|
    ensures Field(s, k + at, n) == Field(s[k..], at, n)
  {
    assert s[k + at..k + at + n] == s[k..][at..at + n];
  }

  lemma ProductRoundTrip(p: Product, kind: Byte)
    requires ValidProduct(p)
    ensures ProductOf(ProductBytes(p, kind)) == p && ProductBytes(p, kind)[39] == kind
  {
    Pow256Values();
    var s := ProductBytes(p, kind);
    var s4 := p.name + [kind];
    var s3 := BigEndian(p.date, 4) + s4;
    var s2 := BigEndian(p.version, 4) + s3;
    var s1 := BigEndian(p.id, 4) + s2;
    hide BigEndian, Value, Pow256;
    FieldFirst(p.vendor, 8, s1);
    FieldFirst(p.id, 4, s2);
    FieldFirst(p.version, 4, s3);
    FieldFirst(p.date, 4, s4);
    Tail(s, 8, 4, s1, s2);
    Tail(s, 12, 4, s2, s3);
    Tail(s, 16, 4, s3, s4);
    FieldBehind(s, 8, 0, 4);
    FieldBehind(s, 12, 0, 4);
    FieldBehind(s, 16, 0, 4);
    assert s[20..39] == s4[..19] && s4[..19] == p.name;
    assert s[39] == s4[19];
  }

  lemma Tail<T>(s: seq<T>, k: nat, n: nat, a: seq<T>, b: seq<T>)
    requires k + n <= |s| && s[k..] == a && n <= |a| && a[n..] == b
    ensures s[k + n..] == b
  {
  }

  lemma ComponentRoundTrip(c: Component, kind: Byte, base: nat)
    requires ValidComponent(c)
    ensures ComponentOf(ComponentBytes(c, kind), base)
            == c.(first := (c.first + base) % WORD, last := (c.last + base) % WORD)
    ensures ComponentBytes(c, kind)[55] == kind
  {
    Pow256Values();
    var s := ComponentBytes(c, kind);
    var s2 := ProductBytes(c.product, kind);
    var s1 := BigEndian(c.last, 8) + s2;
    ProductRoundTrip(c.product, kind);
    hide BigEndian, Value, Pow256, ProductBytes, ProductOf;
    FieldFirst(c.first, 8, s1);
    FieldFirst(c.last, 8, s2);
    Tail(s, 8, 8, s1, s2);
    FieldBehind(s, 8, 0, 8);
    assert s[55] == s2[39];
  }

  /** A device record survives, but for the move of its range. */
  lemma DeviceRoundTrip(d: SdbDevice, base: nat)
    requires ValidDevice(d)
    ensures DeviceOf(DeviceBytes(d), base) == Rebased(d, base) && DeviceBytes(d)[63] == DEVICE
  {
    var s := DeviceBytes(d);
    RecordLayout(d, 0, 0, 0);
    ComponentRoundTrip(d.component, DEVICE, base);
    Pow256Values();
    FieldIs(s, 0, d.abiClass, 2);
    FieldIs(s, 4, d.busSpecific, 4);
    hide BigEndian, Value, Pow256, ComponentBytes, ComponentOf, DeviceBytes, Field;
    assert s[63] == s[8..][55];
  }

  lemma FieldIs(s: seq<Byte>, at: nat, v: nat, n: nat)
    requires at + n <= |s| && s[at..at + n] == BigEndian(v, n) && v < Pow256(n)
    ensures Field(s, at, n) == v
  {
    ValueOfBigEndian(v, n);
    SmallMod(v, Pow256(n));
  }

  /** A header tells what it is and how many records there are. */
  lemma InterconnectRoundTrip(devices: nat, version: nat, date: nat)
    requires devices < 0xFFFF && version < 0x1_0000_0000 && date < 0x1_0000_0000
    ensures var s := InterconnectBytes(devices, version, date);
            Field(s, 0, 4) == MAGIC && Field(s, 4, 2) == devices + 1 && s[63] == INTERCONNECT
  {
    var s := InterconnectBytes(devices, version, date);
    var component := Component(0, WORD - 1, Product(0x651, 0x02398114, version, date, BUS_NAME));
    HeaderLayout(devices, version, date);
    ComponentLayout(component, INTERCONNECT);
    Pow256Values();
    FieldIs(s, 0, MAGIC, 4);
    FieldIs(s, 4, devices + 1, 2);
    hide BigEndian, Value, Pow256, ComponentBytes, InterconnectBytes, Field;
    assert s[63] == s[8..][55];
  }
}
