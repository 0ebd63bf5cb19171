/** The engine's schema vocabulary, as the destinations see it. */
module EngineTypes {
  type u8 = x: nat | x < 256

  datatype LogicalType =
    | Bool | Int64 | Float64
    | Decimal(precision: u8, scale: u8)
    | Utf8 | Binary | TimestampTz | TimestampNaive | Date | Time | Uuid | Json

  datatype ColumnType =
    | Scalar(scalar: LogicalType)
    | ScalarList(item: LogicalType)
    | Struct(fields: seq<Column>)

  datatype Provenance = Inferred | Hinted

  datatype Column = Column(name: string, ty: ColumnType, nullable: bool, provenance: Provenance)
}
