/**
 * The status-LED character driver.  User space sends START, STOP or RESET
 * through ioctl; the driver shows the camera state on a red and a green
 * LED, each on its own GPIO line.  The LEDs are active-low: driving a line
 * to 0 lights its LED, driving it to 1 puts it out.  When the GPIO lines
 * could not be obtained at load time, the commands are accepted and only
 * logged.
 *
 * Kernel services (device registration, class and node creation, GPIO
 * lookup) are modelled by their outcomes, which the loader passes in.
 */
module CamStream {

  /** The ioctl magic number, 'k'. */
  const IOC_MAGIC: nat := 0x6B

  /** A command number with no direction and no argument size: type in bits 8-15, number in bits 0-7. */
  function Io(magic: nat, nr: nat): (code: nat)
    requires magic < 256 && nr < 256
    ensures code / 256 == magic && code % 256 == nr
  {
    magic * 256 + nr
  }

  const CAM_IOC_START: nat := Io(IOC_MAGIC, 1)
  const CAM_IOC_STOP: nat := Io(IOC_MAGIC, 2)
  const CAM_IOC_RESET: nat := Io(IOC_MAGIC, 3)

  const EINVAL: int := 22

  /** GPIO numbers of the two LEDs. */
  const GPIO_BASE: nat := 571
  const LED_RED_GPIO: nat := GPIO_BASE + 21
  const LED_GREEN_GPIO: nat := GPIO_BASE + 20

  /** The levels last driven onto the red and the green line. */
  datatype Lines = Lines(red: int, green: int)

  /** What the LEDs show. */
  datatype Light = Dark | Red | Green | Yellow

  /** Active-low: a line at 0 lights its LED; red and green together look yellow. */
  function Shown(l: Lines): Light
  {
    if l.red == 0 && l.green == 0 then Yellow
    else if l.red == 0 then Red
    else if l.green == 0 then Green
    else Dark
  }

  predicate IsCommand(cmd: nat)
  {
    cmd == CAM_IOC_START || cmd == CAM_IOC_STOP || cmd == CAM_IOC_RESET
  }

  /** The light each command announces. */
  function LightFor(cmd: nat): Light
    requires IsCommand(cmd)
  {
    if cmd == CAM_IOC_START then Green else if cmd == CAM_IOC_STOP then Red else Yellow
  }

  /** The line levels after handling `cmd`, as a sequence of two line writes in the driver's order. */
  function AfterCommand(l: Lines, cmd: nat, ready: bool): (r: Lines)
  {
    if !ready || !IsCommand(cmd) then l
    else if cmd == CAM_IOC_START then l.(red := 1).(green := 0)
    else if cmd == CAM_IOC_STOP then l.(green := 1).(red := 0)
    else l.(green := 0).(red := 0)
  }

  /** The ioctl result: 0 for the three commands, -EINVAL for anything else. */
  function IoctlResult(cmd: nat): (ret: int)
    ensures ret == 0 <==> IsCommand(cmd)
    ensures ret != 0 ==> ret == -EINVAL
  {
    if IsCommand(cmd) then 0 else -EINVAL
  }

  /** With the lines available, a command leaves the LEDs showing exactly its light. */
  lemma CommandShowsItsLight(l: Lines, cmd: nat)
    requires IsCommand(cmd)
    ensures Shown(AfterCommand(l, cmd, true)) == LightFor(cmd)
    ensures cmd == CAM_IOC_START ==> AfterCommand(l, cmd, true) == Lines(1, 0)
    ensures cmd == CAM_IOC_STOP ==> AfterCommand(l, cmd, true) == Lines(0, 1)
    ensures cmd == CAM_IOC_RESET ==> AfterCommand(l, cmd, true) == Lines(0, 0)
  {
  }

  /** Without the lines, or for an unknown code, nothing changes. */
  lemma NoChangeWithoutLinesOrCommand(l: Lines, cmd: nat, ready: bool)
    requires !ready || !IsCommand(cmd)
    ensures AfterCommand(l, cmd, ready) == l
  {
  }

  /** The LED state depends only on the latest command: earlier commands leave no trace. */
  lemma LatestCommandWins(l: Lines, cmds: seq<nat>)
    requires cmds != [] && IsCommand(cmds[|cmds| - 1])
    ensures Shown(AfterCommands(l, cmds, true)) == LightFor(cmds[|cmds| - 1])
    ensures AfterCommands(l, cmds, true) == AfterCommand(Lines(1, 1), cmds[|cmds| - 1], true)
  {
    CommandShowsItsLight(AfterCommands(l, cmds[..|cmds| - 1], true), cmds[|cmds| - 1]);
    CommandShowsItsLight(Lines(1, 1), cmds[|cmds| - 1]);
  }

  /** The line levels after handling `cmds` in order. */
  function AfterCommands(l: Lines, cmds: seq<nat>, ready: bool): Lines
  {
    if cmds == [] then l else AfterCommand(AfterCommands(l, cmds[..|cmds| - 1], ready), cmds[|cmds| - 1], ready)
  }

  /** Without the lines, no sequence of commands changes anything. */
  lemma {:induction false} NotReadyIgnoresAll(l: Lines, cmds: seq<nat>)
    ensures AfterCommands(l, cmds, false) == l
  {
    if cmds != [] {
      NotReadyIgnoresAll(l, cmds[..|cmds| - 1]);
    }
  }

  /** How a kernel object creation turned out. */
  datatype Creation = Created | Failed(err: int)

  /** The loaded driver's state: the registrations it holds and the LED lines. */
  class Driver {
    var major: int
    var registered: bool
    var classCreated: bool
    var deviceCreated: bool
    /** Set once both LED lines were obtained and configured. */
    var gpioReady: bool
    /** Whether the red / green line descriptors are held. */
    var redHeld: bool
    var greenHeld: bool
    var lines: Lines

    /** The state before loading. */
    constructor ()
      ensures !registered && !classCreated && !deviceCreated
      ensures !gpioReady && !redHeld && !greenHeld
      ensures lines == Lines(1, 1)
    {
      major := 0;
      registered, classCreated, deviceCreated := false, false, false;
      gpioReady, redHeld, greenHeld := false, false, false;
      lines := Lines(1, 1);
    }

    /**
     * Module load.  A failed step undoes the earlier ones and returns its
     * error; a device with no LED lines still loads, with the commands
     * only logged.  With both lines, both are configured as outputs at 1
     * (dark) and then red is lit.  `described` holds the GPIO numbers for
     * which the kernel has a descriptor.
     */
    method Init(regResult: int, cls: Creation, dev: Creation, described: set<nat>) returns (status: int)
      requires !registered && !classCreated && !deviceCreated && !redHeld && !greenHeld && !gpioReady
      requires cls.Failed? ==> cls.err < 0
      requires dev.Failed? ==> dev.err < 0
      modifies this
      ensures regResult < 0 ==> status == regResult
      ensures regResult >= 0 && cls.Failed? ==> status == cls.err
      ensures regResult >= 0 && cls.Created? && dev.Failed? ==> status == dev.err
      ensures status == 0 <==> regResult >= 0 && cls.Created? && dev.Created?
      ensures status != 0 ==> status < 0 && !registered && !classCreated && !deviceCreated
                              && !gpioReady && !redHeld && !greenHeld && lines == old(lines)
      ensures status == 0 ==> registered && classCreated && deviceCreated && major == regResult
      ensures status == 0 ==> (gpioReady <==> LED_RED_GPIO in described && LED_GREEN_GPIO in described)
      ensures status == 0 && gpioReady ==> redHeld && greenHeld && lines == Lines(0, 1) && Shown(lines) == Red
      ensures status == 0 && !gpioReady ==> !redHeld && !greenHeld && lines == old(lines)
    {
      major := regResult;
      if major < 0 {
        return major;
      }
      registered := true;
      if cls.Failed? {
        registered := false;
        return cls.err;
      }
      classCreated := true;
      if dev.Failed? {
        classCreated := false;
        registered := false;
        return dev.err;
      }
      deviceCreated := true;

      redHeld, greenHeld := LED_RED_GPIO in described, LED_GREEN_GPIO in described;
      if !redHeld || !greenHeld {
        gpioReady := false;
        if redHeld {
          redHeld := false;
        }
        if greenHeld {
          greenHeld := false;
        }
      } else {
        lines := lines.(red := 1);
        lines := lines.(green := 1);
        gpioReady := true;
        lines := lines.(red := 0);
      }
      return 0;
    }

    /** The ioctl handler. */
    method Ioctl(cmd: nat) returns (ret: int)
      modifies this
      ensures ret == IoctlResult(cmd)
      ensures lines == AfterCommand(old(lines), cmd, gpioReady)
      ensures gpioReady == old(gpioReady) && redHeld == old(redHeld) && greenHeld == old(greenHeld)
      ensures major == old(major) && registered == old(registered)
      ensures classCreated == old(classCreated) && deviceCreated == old(deviceCreated)
    {
      if cmd == CAM_IOC_START {
        if gpioReady {
          lines := lines.(red := 1);
          lines := lines.(green := 0);
        }
      } else if cmd == CAM_IOC_STOP {
        if gpioReady {
          lines := lines.(green := 1);
          lines := lines.(red := 0);
        }
      } else if cmd == CAM_IOC_RESET {
        if gpioReady {
          lines := lines.(green := 0);
          lines := lines.(red := 0);
        }
      } else {
        return -EINVAL;
      }
      return 0;
    }

    /**
     * Module unload: with the lines held, both are driven to 1 (dark) and
     * released; then the node, the class and the registration are removed.
     */
    method Exit()
      requires registered && classCreated && deviceCreated
      requires gpioReady ==> redHeld && greenHeld
      modifies this
      ensures old(gpioReady) ==> lines == Lines(1, 1) && Shown(lines) == Dark
      ensures !old(gpioReady) ==> lines == old(lines)
      ensures old(gpioReady) ==> !redHeld && !greenHeld
      ensures !old(gpioReady) ==> redHeld == old(redHeld) && greenHeld == old(greenHeld)
      ensures gpioReady == old(gpioReady)
      ensures !registered && !classCreated && !deviceCreated
    {
      if gpioReady {
        lines := lines.(red := 1);
        lines := lines.(green := 1);
        redHeld, greenHeld := false, false;
      }
      deviceCreated := false;
      classCreated := false;
      registered := false;
    }
  }

  /** The three command codes are distinct, and each is 'k' in the type byte. */
  lemma CommandCodes()
    ensures CAM_IOC_START == 0x6B01 && CAM_IOC_STOP == 0x6B02 && CAM_IOC_RESET == 0x6B03
  {
  }
}
