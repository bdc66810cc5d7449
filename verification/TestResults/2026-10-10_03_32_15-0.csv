TestResult.DisplayName,TestResult.Outcome,TestResult.Duration,TestResult.ResourceCount,RandomSeed
MessageRepository.InsertNewestFirst (well-formedness),Passed,00:00:00.2888041,284185,2
