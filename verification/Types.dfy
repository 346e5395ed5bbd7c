/** Entities shared by the modules (internal/types/types.go). */
module Types {

  const TWO_TO_THE_63: int := 0x8000_0000_0000_0000
  const TWO_TO_THE_64: int := 0x1_0000_0000_0000_0000

  type int64 = x: int | -TWO_TO_THE_63 <= x < TWO_TO_THE_63
  type uint64 = x: int | 0 <= x < TWO_TO_THE_64

  datatype Option<+T> = None | Some(value: T)

  function Elements(s: seq<string>): set<string> { set x | x in s }

  datatype HealthStatus = Healthy | Unhealthy | Unknown

  /** A string in the program: every value other than "weighted" behaves like round robin. */
  datatype LBMethod = RoundRobin | Weighted | OtherMethod(name: string)

  datatype Config = Config(id: string, dnsName: string, dnsTtl: int, lbMethod: LBMethod)

  datatype Backend = Backend(id: string, configId: string, ip: string, weight: int64, enabled: bool)

  datatype HealthCheck = HealthCheck(thresholdHealthy: int, thresholdUnhealthy: int)
}
