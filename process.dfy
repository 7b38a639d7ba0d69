/** How the program ends a run: an operation either yields a value, or prints a
    message and terminates the process with an exit status. */
module Process {

  /** The exit status `EXIT_FAILURE` of the C library. */
  const ExitFailure: int := 1

  /** Printed, in red, when the sensor file cannot be opened. */
  const UnsupportedMessage: string :=
    "\U{1B}[0;31mThis system is not supported by PiTempMonitor\U{1B}[0m\n"

  /** Printed when the bar builder is given thresholds in the wrong order. */
  const ThresholdMessage: string :=
    "Expected cyan threshold to be less than yellow threshold"

  /** Either the operation returned `value`, or it printed `message` and called `exit(code)`. */
  datatype Outcome<+T> = Ok(value: T) | Exit(code: int, message: string)
}
