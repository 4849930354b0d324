module MachineIntegers {
  const U64_RANGE := 0x1_0000_0000_0000_0000

  type U64 = x: int | 0 <= x < U64_RANGE
}
