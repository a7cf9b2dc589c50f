/** An optional value: a register read that may fail, a pointer that may be NULL. */
module Options {
  datatype Option<+T> = None | Some(value: T)
}

/** The four ports of an EtherCAT slave.  The source keeps a set of ports as a bit mask in
    one byte; here it is a set. */
module Ports {
  newtype Port = p: int | 0 <= p < 4

  const ALL_PORTS: set<Port> := {0, 1, 2, 3}
}
