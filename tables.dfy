/** The three constant tables. The source fills them in instance initialisers, so they are complete
 *  before any member that reads them can run. */
module TypeTables {

  /** The eight primitive type names of Java, and `void`. */
  const PrimitiveTypeNames: set<string> :=
    {"byte", "short", "int", "long", "float", "double", "boolean", "char", "void"}

  /**
   * The simple names resolved into `java.lang`, as listed for Java 7; nested types keep their dotted
   * form, and one entry is a table heading that was captured with the names. A function rather than a
   * constant, so that its hundred-odd strings enter a proof only where a lookup needs them; it is the
   * union of the catalogue's six groups, so that a fact about the catalogue is proved group by group.
   */
  function JavaLangTypes(): set<string> {
    LangInterfaces() + LangClasses() + LangEnums() + LangExceptions() + LangErrors() + LangAnnotations()
  }

  /** The interfaces of `java.lang`. */
  function LangInterfaces(): set<string> {
    {
      "Appendable", "AutoCloseable", "CharSequence", "Cloneable", "Comparable", "Iterable", "Readable",
      "Runnable", "Thread.UncaughtExceptionHandler"
    }
  }

  /** The classes of `java.lang`. */
  function LangClasses(): set<string> {
    {
      "Boolean", "Byte", "Character", "Character.Subset", "Character.UnicodeBlock", "Class", "ClassLoader",
      "ClassValue", "Compiler", "Double", "Enum", "Float", "InheritableThreadLocal", "Integer", "Long", "Math",
      "Number", "Object", "Package", "Process", "ProcessBuilder", "ProcessBuilder.Redirect", "Runtime",
      "RuntimePermission", "SecurityManager", "Short", "StackTraceElement", "StrictMath", "String",
      "StringBuffer", "StringBuilder", "System", "Thread", "ThreadGroup", "ThreadLocal", "Throwable", "Void"
    }
  }

  /** The enumerations of `java.lang`. */
  function LangEnums(): set<string> {
    {
      "Character.UnicodeScript", "ProcessBuilder.Redirect.Type", "Thread.State"
    }
  }

  /** The exception classes of `java.lang`, with the stray table heading that follows them. */
  function LangExceptions(): set<string> {
    {
      "ArithmeticException", "ArrayIndexOutOfBoundsException", "ArrayStoreException", "ClassCastException",
      "ClassNotFoundException", "CloneNotSupportedException", "EnumConstantNotPresentException", "Exception",
      "IllegalAccessException", "IllegalArgumentException", "IllegalMonitorStateException",
      "IllegalStateException", "IllegalThreadStateException", "IndexOutOfBoundsException",
      "InstantiationException", "InterruptedException", "NegativeArraySizeException", "NoSuchFieldException",
      "NoSuchMethodException", "NullPointerException", "NumberFormatException", "ReflectiveOperationException",
      "RuntimeException", "SecurityException", "StringIndexOutOfBoundsException", "TypeNotPresentException",
      "UnsupportedOperationException", "Error Summary  Error \tDescription"
    }
  }

  /** The error classes of `java.lang`. */
  function LangErrors(): set<string> {
    {
      "AbstractMethodError", "AssertionError", "BootstrapMethodError", "ClassCircularityError",
      "ClassFormatError", "Error", "ExceptionInInitializerError", "IllegalAccessError",
      "IncompatibleClassChangeError", "InstantiationError", "InternalError", "LinkageError",
      "NoClassDefFoundError", "NoSuchFieldError", "NoSuchMethodError", "OutOfMemoryError",
      "StackOverflowError", "ThreadDeath", "UnknownError", "UnsatisfiedLinkError",
      "UnsupportedClassVersionError", "VerifyError", "VirtualMachineError"
    }
  }

  /** The annotation types of `java.lang`. */
  function LangAnnotations(): set<string> {
    {
      "Deprecated", "Override", "SafeVarargs", "SuppressWarnings"
    }
  }

  /** The type codes of the primitive types in a native-interface signature. */
  const PrimitiveJniCodes: map<string, string> := map[
    "byte" := "B", "short" := "S", "int" := "I", "long" := "J", "float" := "F",
    "double" := "D", "boolean" := "Z", "char" := "C", "void" := "V"
  ]

  lemma JniCodesCoverExactlyThePrimitives()
    ensures PrimitiveJniCodes.Keys == PrimitiveTypeNames
    ensures forall p :: p in PrimitiveJniCodes ==> |PrimitiveJniCodes[p]| == 1
  {
  }

  /**
   * Every catalogue name has at least four characters, so a name of one or two characters, such as a
   * type variable, is never resolved into `java.lang`.
   */
  lemma ShortNameNotInCatalogue(n: string)
    requires |n| < 3
    ensures n !in JavaLangTypes()
  {
    ShortNameNotInInterfaces(n);
    ShortNameNotInClasses(n);
    ShortNameNotInEnums(n);
    ShortNameNotInExceptions(n);
    ShortNameNotInErrors(n);
    ShortNameNotInAnnotations(n);
  }

  lemma ShortNameNotInInterfaces(n: string)
    requires |n| < 3
    ensures n !in LangInterfaces()
  {
  }

  lemma ShortNameNotInClasses(n: string)
    requires |n| < 3
    ensures n !in LangClasses()
  {
  }

  lemma ShortNameNotInEnums(n: string)
    requires |n| < 3
    ensures n !in LangEnums()
  {
  }

  lemma ShortNameNotInExceptions(n: string)
    requires |n| < 3
    ensures n !in LangExceptions()
  {
  }

  lemma ShortNameNotInErrors(n: string)
    requires |n| < 3
    ensures n !in LangErrors()
  {
  }

  lemma ShortNameNotInAnnotations(n: string)
    requires |n| < 3
    ensures n !in LangAnnotations()
  {
  }
}
