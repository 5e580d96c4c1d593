/** The single entity of the service: a user row of the `users` table. */
module Domain {
  import opened Wrappers

  /** A 128-bit UUID, the primary key. */
  newtype Uuid = x: int | 0 <= x < 0x1_0000_0000_0000_0000_0000_0000_0000_0000

  /** Java's Integer on the wire: a 32-bit signed value. */
  newtype Int32 = x: int | -0x8000_0000 <= x < 0x8000_0000

  /** Every field may be null; `None` stands for null. Structural equality
      over all four fields is datatype equality. */
  datatype User = User(id: Option<Uuid>, name: Option<string>, email: Option<string>, age: Option<Int32>)
}
