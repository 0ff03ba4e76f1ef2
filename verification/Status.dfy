/** The event group shared by the Wi-Fi wrapper: a set of status bits. */
module Status {

  datatype StatusBit =
    | ApStarted | ApHasIp6 | ApHasClient
    | StaStarted | StaConnected | StaHasIp | StaHasIp6
    | EthStarted | EthConnected | EthHasIp | EthHasIp6
    | Scanning | ScanDone
    | DnsIdle | DnsDone

  type StatusBits = set<StatusBit>
}
