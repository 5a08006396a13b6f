/** What the eval suite validators share. */
module EvalSuite {
  datatype SuiteKind = BenchmarkSuite | TargetedSuite
}
